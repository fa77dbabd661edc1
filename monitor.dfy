/**
 * `monitor_folder` (SQL1.py:268-330): at start-up the bookmark is read and,
 * when there is none, every file of the folder is ingested in name order with
 * the in-memory bookmark advanced after each file that produced records
 * (SQL1.py:270-297). Each pass of the polling loop then ingests the files not
 * seen before and writes the bookmark after each one (SQL1.py:300-322).
 *
 * The folder listing is a parameter: a sequence of entries in the order the
 * source visits them (`sorted(os.listdir(...))` at start-up, the iteration
 * order of the set of new names in a poll).
 */
module Monitor {
  import opened Wrappers
  import opened Stamps
  import opened Ingest
  import opened Bookmark
  import opened Store
  import opened Scan

  /** An entry of the log folder: its name, whether it is a regular file, and its lines (None when it cannot be read). */
  datatype LogFile = LogFile(name: string, isFile: bool, lines: Option<seq<string>>)

  /** The records `process_log_file` returns for the entry. */
  function FileData(f: LogFile, last: Option<Moment>): seq<Record> {
    if f.lines.None? then [] else Emitted(f.lines.value, last)
  }

  /** The latest time `process_log_file` returns for the entry. */
  function FileLatest(f: LogFile, last: Option<Moment>): Option<Moment> {
    if f.lines.None? then last else Latest(f.lines.value, last)
  }

  /**
   * The table and in-memory bookmark after the start-up pass over `files`
   * (SQL1.py:277-291): a file that yields records is ingested, and then its
   * latest time becomes the bookmark the next file is read against.
   */
  function InitialPass(rows: seq<Alert>, files: seq<LogFile>, last: Option<Moment>): (seq<Alert>, Option<Moment>)
    decreases |files|
  {
    if files == [] then (rows, last)
    else
      var f := files[0];
      var data := FileData(f, last);
      if f.isFile && data != [] then InitialPass(IngestAll(rows, data), files[1..], FileLatest(f, last))
      else InitialPass(rows, files[1..], last)
  }

  /** Whether a poll reads the entry: a regular file with a name not processed before the poll. */
  predicate Visited(f: LogFile, processed: set<string>) {
    f.isFile && f.name !in processed
  }

  /** `current_files - processed_files`, less the entries that are not regular files. */
  function NewNames(listing: seq<LogFile>, processed: set<string>): set<string> {
    if listing == [] then {}
    else
      var f := listing[|listing| - 1];
      NewNames(listing[..|listing| - 1], processed) + (if Visited(f, processed) then {f.name} else {})
  }

  /** A name is new exactly when some regular file of the listing carries it and it was not processed. */
  lemma {:induction false} InNewNames(listing: seq<LogFile>, processed: set<string>, n: string)
    ensures n in NewNames(listing, processed) <==>
              exists j :: 0 <= j < |listing| && listing[j].name == n && Visited(listing[j], processed)
  {
    if listing != [] {
      var init := listing[..|listing| - 1];
      InNewNames(init, processed, n);
      if exists j :: 0 <= j < |init| && init[j].name == n && Visited(init[j], processed) {
        var j :| 0 <= j < |init| && init[j].name == n && Visited(init[j], processed);
        assert listing[j] == init[j];
      }
      if exists j :: 0 <= j < |listing| && listing[j].name == n && Visited(listing[j], processed) {
        var j :| 0 <= j < |listing| && listing[j].name == n && Visited(listing[j], processed);
        if j < |init| {
          assert init[j] == listing[j];
        }
      }
    }
  }

  /** The table after a poll as written: every new file is read against the same bookmark. */
  function PollRows(rows: seq<Alert>, files: seq<LogFile>, processed: set<string>, last: Option<Moment>): seq<Alert>
    decreases |files|
  {
    if files == [] then rows
    else
      var f := files[0];
      PollRows(if Visited(f, processed) then IngestAll(rows, FileData(f, last)) else rows, files[1..], processed, last)
  }

  /** The bookmark file after a poll as written: each new file writes the latest time it returned. */
  function PollBookmark(content: Option<string>, files: seq<LogFile>, processed: set<string>, last: Option<Moment>): Option<string>
    decreases |files|
  {
    if files == [] then content
    else
      var f := files[0];
      var latest := FileLatest(f, last);
      PollBookmark(if Visited(f, processed) && latest.Some? then Some(FormatStamp(latest.value)) else content,
                   files[1..], processed, last)
  }

  /** What a poll that advances the bookmark after each file leaves: table, in-memory bookmark, bookmark file. */
  datatype Progress = Progress(rows: seq<Alert>, last: Option<Moment>, content: Option<string>)

  /** One visited file in a poll that advances the bookmark: ingest, then move the bookmark to its latest time. */
  function AdvanceFile(p: Progress, f: LogFile): Progress {
    var rows := IngestAll(p.rows, FileData(f, p.last));
    match FileLatest(f, p.last)
    case Some(t) => Progress(rows, Some(t), Some(FormatStamp(t)))
    case None => Progress(rows, p.last, p.content)
  }

  /** A poll in which each new file is read against the bookmark the previous file left. */
  function AdvancingPoll(p: Progress, files: seq<LogFile>, processed: set<string>): Progress
    decreases |files|
  {
    if files == [] then p
    else AdvancingPoll(if Visited(files[0], processed) then AdvanceFile(p, files[0]) else p, files[1..], processed)
  }

  /** Entry names are distinct: the listing comes from a directory. */
  predicate DistinctNames(listing: seq<LogFile>) {
    forall i, j :: 0 <= i < j < |listing| ==> listing[i].name != listing[j].name
  }

  /** With distinct names, an entry's name is new exactly when the poll visits that entry. */
  lemma NewNameIffVisited(listing: seq<LogFile>, processed: set<string>, k: nat)
    requires DistinctNames(listing) && k < |listing|
    ensures listing[k].name in NewNames(listing, processed) <==> Visited(listing[k], processed)
  {
    InNewNames(listing, processed, listing[k].name);
  }

  /** The names visited so far grow by the entry just visited. */
  lemma NewNamesStep(listing: seq<LogFile>, processed: set<string>, k: nat)
    requires k < |listing|
    ensures NewNames(listing[..k + 1], processed)
            == NewNames(listing[..k], processed) + (if Visited(listing[k], processed) then {listing[k].name} else {})
  {
    assert listing[..k + 1][..k] == listing[..k];
  }

  /** The state `monitor_folder` keeps across passes of its loop. */
  class Monitor {
    const store: AlertStore
    const bookmark: BookmarkFile
    var processedFiles: set<string>
    var lastProcessedTime: Option<Moment>

    constructor (store: AlertStore, bookmark: BookmarkFile)
      ensures this.store == store && this.bookmark == bookmark
      ensures processedFiles == {} && lastProcessedTime == None
    {
      this.store := store;
      this.bookmark := bookmark;
      processedFiles := {};
      lastProcessedTime := None;
    }

    /**
     * SQL1.py:270-297. With a bookmark on file, nothing is read. Without one,
     * every entry is ingested in turn, and the bookmark is written once at the
     * end when some file produced records.
     */
    method Start(files: seq<LogFile>)
      modifies this, store, bookmark
      ensures processedFiles == {}
      ensures ReadBookmark(old(bookmark.content)).Some? ==>
                lastProcessedTime == ReadBookmark(old(bookmark.content))
                && store.rows == old(store.rows) && bookmark.content == old(bookmark.content)
      ensures ReadBookmark(old(bookmark.content)).None? ==>
                (store.rows, lastProcessedTime) == InitialPass(old(store.rows), files, None)
      ensures ReadBookmark(old(bookmark.content)).None? ==>
                bookmark.content == if lastProcessedTime.Some? then Some(FormatStamp(lastProcessedTime.value))
                                    else old(bookmark.content)
    {
      processedFiles := {};
      lastProcessedTime := bookmark.Read();
      if lastProcessedTime.None? {
        for k := 0 to |files|
          invariant InitialPass(old(store.rows), files, None) == InitialPass(store.rows, files[k..], lastProcessedTime)
          invariant bookmark.content == old(bookmark.content)
          invariant processedFiles == {}
        {
          assert files[k..][1..] == files[k + 1..];
          var f := files[k];
          if f.isFile {
            var data, latest := ProcessLogFile(f.lines, lastProcessedTime);
            if data != [] {
              store.Ingest(data);
              lastProcessedTime := latest;
            }
          }
        }
        assert files[|files|..] == [];
        if lastProcessedTime.Some? {
          bookmark.Update(lastProcessedTime);
        }
      }
    }

    /**
     * One pass of the polling loop, SQL1.py:301-322, as written: the files
     * not processed yet are read against `lastProcessedTime`, which the pass
     * never changes, and after each one the latest time it returned is
     * written to the bookmark file.
     */
    method Poll(listing: seq<LogFile>)
      requires DistinctNames(listing)
      modifies this, store, bookmark
      ensures lastProcessedTime == old(lastProcessedTime)
      ensures processedFiles == old(processedFiles) + NewNames(listing, old(processedFiles))
      ensures store.rows == PollRows(old(store.rows), listing, old(processedFiles), lastProcessedTime)
      ensures bookmark.content == PollBookmark(old(bookmark.content), listing, old(processedFiles), lastProcessedTime)
    {
      var processed := processedFiles;
      var newFiles := NewNames(listing, processedFiles);
      ghost var rowsGoal := PollRows(store.rows, listing, processed, lastProcessedTime);
      ghost var bookmarkGoal := PollBookmark(bookmark.content, listing, processed, lastProcessedTime);
      for k := 0 to |listing|
        invariant lastProcessedTime == old(lastProcessedTime)
        invariant processedFiles == processed + NewNames(listing[..k], processed)
        invariant rowsGoal == PollRows(store.rows, listing[k..], processed, lastProcessedTime)
        invariant bookmarkGoal == PollBookmark(bookmark.content, listing[k..], processed, lastProcessedTime)
      {
        assert listing[k..][1..] == listing[k + 1..];
        var f := listing[k];
        NewNameIffVisited(listing, processed, k);
        NewNamesStep(listing, processed, k);
        if f.name in newFiles {
          var data, latest := ProcessLogFile(f.lines, lastProcessedTime);
          if data != [] {
            store.Ingest(data);
          }
          if latest.Some? {
            bookmark.Update(latest);
          }
          processedFiles := processedFiles + {f.name};
        }
      }
      assert listing[..|listing|] == listing;
      assert listing[|listing|..] == [];
    }

    /**
     * The poll as evidently intended: each file's latest time also becomes
     * the bookmark the next file is read against, as at start-up
     * (SQL1.py:291), so the bookmark file never moves backwards.
     */
    method PollAdvancing(listing: seq<LogFile>)
      requires DistinctNames(listing)
      modifies this, store, bookmark
      ensures processedFiles == old(processedFiles) + NewNames(listing, old(processedFiles))
      ensures Progress(store.rows, lastProcessedTime, bookmark.content)
              == AdvancingPoll(Progress(old(store.rows), old(lastProcessedTime), old(bookmark.content)),
                               listing, old(processedFiles))
    {
      var processed := processedFiles;
      var newFiles := NewNames(listing, processedFiles);
      ghost var goal := AdvancingPoll(Progress(store.rows, lastProcessedTime, bookmark.content), listing, processed);
      for k := 0 to |listing|
        invariant processedFiles == processed + NewNames(listing[..k], processed)
        invariant goal == AdvancingPoll(Progress(store.rows, lastProcessedTime, bookmark.content), listing[k..], processed)
      {
        assert listing[k..][1..] == listing[k + 1..];
        var f := listing[k];
        ghost var before := Progress(store.rows, lastProcessedTime, bookmark.content);
        NewNameIffVisited(listing, processed, k);
        NewNamesStep(listing, processed, k);
        if f.name in newFiles {
          var data, latest := ProcessLogFile(f.lines, lastProcessedTime);
          if data != [] {
            store.Ingest(data);
          }
          if latest.Some? {
            lastProcessedTime := latest;
            bookmark.Update(latest);
          }
          assert Progress(store.rows, lastProcessedTime, bookmark.content) == AdvanceFile(before, f);
          processedFiles := processedFiles + {f.name};
        }
      }
      assert listing[..|listing|] == listing;
      assert listing[|listing|..] == [];
    }
  }

  // ---------------------------------------------------------------------------
  // What the bookmark guarantees.

  /** `a` is a time not earlier than `b`, when `b` is one. */
  predicate NotBefore(a: Option<Moment>, b: Option<Moment>) {
    b.Some? ==> a.Some? && !Earlier(a.value, b.value)
  }

  /** Every row from position `from` on has a time, and the bookmark is not earlier than it. */
  predicate Covered(rows: seq<Alert>, from: nat, last: Option<Moment>) {
    forall k :: from <= k < |rows| ==> rows[k].time.Some? && NotBefore(last, rows[k].time)
  }

  /** Reading one file and ingesting what it yields keeps the old rows, and its latest time covers the new ones. */
  lemma FileCovers(rows: seq<Alert>, f: LogFile, last: Option<Moment>)
    ensures var rows' := IngestAll(rows, FileData(f, last));
            && |rows| <= |rows'| && rows'[..|rows|] == rows
            && NotBefore(FileLatest(f, last), last) && Covered(rows', |rows|, FileLatest(f, last))
  {
    var data := FileData(f, last);
    IngestAppends(rows, data);
    if f.lines.Some? {
      LatestIsMaximum(f.lines.value, last);
      EmittedWithinLatest(f.lines.value, last);
      var rows' := IngestAll(rows, data);
      forall k | |rows| <= k < |rows'|
        ensures rows'[k].time.Some? && NotBefore(FileLatest(f, last), rows'[k].time)
      {
        assert RowFor(rows'[|rows| + (k - |rows|)], data[k - |rows|]);
        assert data[k - |rows|] in data;
      }
    }
  }

  /** Coverage carries over to a later bookmark. */
  lemma CoveredLater(rows: seq<Alert>, from: nat, last: Option<Moment>, later: Option<Moment>)
    requires Covered(rows, from, last) && NotBefore(later, last)
    ensures Covered(rows, from, later)
  {
    forall k | from <= k < |rows|
      ensures rows[k].time.Some? && NotBefore(later, rows[k].time)
    {
      NotEarlierTransitive(rows[k].time.value, last.value, later.value);
    }
  }

  /**
   * After the start-up pass, the bookmark is not earlier than where it began
   * nor than any row the pass added: nothing ingested lies past it.
   */
  lemma {:induction false} InitialPassCovers(rows: seq<Alert>, files: seq<LogFile>, last: Option<Moment>)
    ensures var (rows', last') := InitialPass(rows, files, last);
            && |rows| <= |rows'| && rows'[..|rows|] == rows
            && NotBefore(last', last) && Covered(rows', |rows|, last')
    decreases |files|
  {
    if files != [] {
      var f := files[0];
      var data := FileData(f, last);
      if f.isFile && data != [] {
        var rows1, last1 := IngestAll(rows, data), FileLatest(f, last);
        FileCovers(rows, f, last);
        InitialPassCovers(rows1, files[1..], last1);
        var (rows', last') := InitialPass(rows1, files[1..], last1);
        assert rows'[..|rows|] == rows'[..|rows1|][..|rows|];
        CoveredLater(rows1, |rows|, last1, last');
        forall k | |rows| <= k < |rows'|
          ensures rows'[k].time.Some? && NotBefore(last', rows'[k].time)
        {
          if k < |rows1| {
            assert rows'[k] == rows'[..|rows1|][k] == rows1[k];
          }
        }
        if last.Some? {
          NotEarlierTransitive(last.value, last1.value, last'.value);
        }
      } else {
        InitialPassCovers(rows, files[1..], last);
      }
    }
  }

  /** The bookmark file holds the in-memory bookmark. */
  predicate InSync(p: Progress) {
    p.last.Some? ==> p.content == Some(FormatStamp(p.last.value))
  }

  /**
   * The corrected poll: the bookmark never moves backwards, the file keeps
   * holding it, and it is not earlier than any row the poll added.
   */
  lemma {:induction false} AdvancingPollCovers(p: Progress, files: seq<LogFile>, processed: set<string>)
    requires InSync(p)
    ensures var q := AdvancingPoll(p, files, processed);
            && |p.rows| <= |q.rows| && q.rows[..|p.rows|] == p.rows
            && NotBefore(q.last, p.last) && Covered(q.rows, |p.rows|, q.last) && InSync(q)
    decreases |files|
  {
    if files != [] {
      var f := files[0];
      if Visited(f, processed) {
        var p1 := AdvanceFile(p, f);
        AdvanceFileCovers(p, f);
        AdvancingPollCovers(p1, files[1..], processed);
        CoverCompose(p, p1, AdvancingPoll(p1, files[1..], processed));
      } else {
        AdvancingPollCovers(p, files[1..], processed);
      }
    }
  }

  /** One visited file: the rows grow, the bookmark does not move back and covers the new rows. */
  lemma AdvanceFileCovers(p: Progress, f: LogFile)
    requires InSync(p)
    ensures var p1 := AdvanceFile(p, f);
            && |p.rows| <= |p1.rows| && p1.rows[..|p.rows|] == p.rows
            && NotBefore(p1.last, p.last) && Covered(p1.rows, |p.rows|, p1.last) && InSync(p1)
  {
    FileCovers(p.rows, f, p.last);
  }

  /** Two such steps make one. */
  lemma CoverCompose(p: Progress, p1: Progress, q: Progress)
    requires |p.rows| <= |p1.rows| && p1.rows[..|p.rows|] == p.rows
    requires NotBefore(p1.last, p.last) && Covered(p1.rows, |p.rows|, p1.last)
    requires |p1.rows| <= |q.rows| && q.rows[..|p1.rows|] == p1.rows
    requires NotBefore(q.last, p1.last) && Covered(q.rows, |p1.rows|, q.last)
    ensures |p.rows| <= |q.rows| && q.rows[..|p.rows|] == p.rows
    ensures NotBefore(q.last, p.last) && Covered(q.rows, |p.rows|, q.last)
  {
    assert q.rows[..|p.rows|] == q.rows[..|p1.rows|][..|p.rows|];
    CoveredLater(p1.rows, |p.rows|, p1.last, q.last);
    forall k | |p.rows| <= k < |q.rows|
      ensures q.rows[k].time.Some? && NotBefore(q.last, q.rows[k].time)
    {
      if k < |p1.rows| {
        assert q.rows[k] == q.rows[..|p1.rows|][k] == p1.rows[k];
      }
    }
    if p.last.Some? {
      NotEarlierTransitive(p.last.value, p1.last.value, q.last.value);
    }
  }

  /** A file of one fresh line yields that line's record, and the bookmark moves to its time. */
  lemma {:induction false} FreshLineFile(name: string, line: string, last: Moment)
    requires Classify(line, Some(last)).Fresh?
    ensures var f := LogFile(name, true, Some([line]));
            var r := Classify(line, Some(last)).record;
            FileData(f, Some(last)) == [r] && FileLatest(f, Some(last)) == Some(r.time)
  {
    var o := Classify(line, Some(last));
    SingleLine(line, Some(last));
    FreshAdvance(o, last);
  }

  /** A file of one line emits that line's output and advances from the bookmark by it. */
  lemma SingleLine(line: string, last: Option<Moment>)
    ensures Emitted([line], last) == Output(Classify(line, last))
    ensures Latest([line], last) == Advance(last, Classify(line, last))
  {
    assert [line][..0] == [] && [line][0] == line;
    assert [] + Output(Classify(line, last)) == Output(Classify(line, last));
  }

  /** A fresh outcome is output and becomes the latest time. */
  lemma FreshAdvance(o: LineOutcome, last: Moment)
    requires o.Fresh? && After(o.record.time, Some(last))
    ensures Output(o) == [o.record] && Advance(Some(last), o) == Some(o.record.time)
  {
  }

  /** A poll over two new files, written out: the table. */
  lemma {:induction false} TwoFilePollRows(rows: seq<Alert>, a: LogFile, b: LogFile, last: Option<Moment>)
    requires a.isFile && b.isFile
    ensures PollRows(rows, [a, b], {}, last) == IngestAll(IngestAll(rows, FileData(a, last)), FileData(b, last))
  {
    var x := IngestAll(rows, FileData(a, last));
    var y := IngestAll(x, FileData(b, last));
    assert [a, b][0] == a && [a, b][1..] == [b] && [b][0] == b && [b][1..] == [];
    assert PollRows(y, [], {}, last) == y;
    assert PollRows(x, [b], {}, last) == PollRows(y, [], {}, last);
    assert PollRows(rows, [a, b], {}, last) == PollRows(x, [b], {}, last);
  }

  /** A poll over two new files, written out: the bookmark file holds what the second one returned. */
  lemma {:induction false} TwoFilePollBookmark(content: Option<string>, a: LogFile, b: LogFile, last: Option<Moment>)
    requires a.isFile && b.isFile && FileLatest(b, last).Some?
    ensures PollBookmark(content, [a, b], {}, last) == Some(FormatStamp(FileLatest(b, last).value))
  {
    var c1 := if FileLatest(a, last).Some? then Some(FormatStamp(FileLatest(a, last).value)) else content;
    var c2 := Some(FormatStamp(FileLatest(b, last).value));
    assert [a, b][0] == a && [a, b][1..] == [b] && [b][0] == b && [b][1..] == [];
    assert PollBookmark(c2, [], {}, last) == c2;
    assert PollBookmark(c1, [b], {}, last) == PollBookmark(c2, [], {}, last);
    assert PollBookmark(content, [a, b], {}, last) == PollBookmark(c1, [b], {}, last);
  }

  /**
   * The poll as written moves the bookmark file backwards: a new file with a
   * detection later than the bookmark writes that detection's time, and a
   * following new file with nothing later writes the start-up bookmark again.
   * After a restart that bookmark lets the same detection be ingested twice.
   */
  lemma {:induction false} PollBookmarkRegresses(start: Moment, line: string)
    requires start.micro == 0 && Classify(line, Some(start)).Fresh?
    ensures var t := Classify(line, Some(start)).record.time;
            var files := [LogFile("a.json", true, Some([line])), LogFile("b.json", true, Some([]))];
            var rows := PollRows([], files, {}, Some(start));
            var content := PollBookmark(None, files, {}, Some(start));
            && Earlier(start, t)
            && |rows| == 1 && rows[0].time == Some(t)
            && ReadBookmark(content) == Some(start)
            && var again := PollRows(rows, files, {}, ReadBookmark(content));
               |again| == 2 && again[1].time == Some(t)
  {
    var a, b := LogFile("a.json", true, Some([line])), LogFile("b.json", true, Some([]));
    FreshLineFile("a.json", line, start);
    assert FileData(b, Some(start)) == [] && FileLatest(b, Some(start)) == Some(start);
    RegressionOf(start, a, b, Classify(line, Some(start)).record);
  }

  /** `PollBookmarkRegresses` for any file with one fresh record followed by a file with none. */
  lemma RegressionOf(start: Moment, a: LogFile, b: LogFile, r: Record)
    requires start.micro == 0 && a.isFile && b.isFile
    requires FileData(a, Some(start)) == [r] && FileLatest(a, Some(start)) == Some(r.time)
    requires FileData(b, Some(start)) == [] && FileLatest(b, Some(start)) == Some(start)
    ensures var rows := PollRows([], [a, b], {}, Some(start));
            var content := PollBookmark(None, [a, b], {}, Some(start));
            && |rows| == 1 && rows[0].time == Some(r.time)
            && ReadBookmark(content) == Some(start)
            && var again := PollRows(rows, [a, b], {}, ReadBookmark(content));
               |again| == 2 && again[1].time == Some(r.time)
  {
    TwoFilePollRows([], a, b, Some(start));
    TwoFilePollBookmark(None, a, b, Some(start));
    IngestAppends([], [r]);
    var rows := PollRows([], [a, b], {}, Some(start));
    assert RowFor(rows[0], r);
    BookmarkRoundTrip(start);
    TwoFilePollRows(rows, a, b, Some(start));
    IngestAppends(rows, [r]);
    var again := PollRows(rows, [a, b], {}, Some(start));
    assert RowFor(again[|rows| + 0], r);
  }

  /** The poll that advances the bookmark leaves the later time on file for the same two files. */
  lemma {:induction false} AdvancingPollKeepsLatest(start: Moment, line: string)
    requires Classify(line, Some(start)).Fresh?
    ensures var t := Classify(line, Some(start)).record.time;
            var files := [LogFile("a.json", true, Some([line])), LogFile("b.json", true, Some([]))];
            var q := AdvancingPoll(Progress([], Some(start), Some(FormatStamp(start))), files, {});
            q.content == Some(FormatStamp(t)) && q.last == Some(t) && |q.rows| == 1
  {
    var a, b := LogFile("a.json", true, Some([line])), LogFile("b.json", true, Some([]));
    var r := Classify(line, Some(start)).record;
    var p0 := Progress([], Some(start), Some(FormatStamp(start)));
    FreshLineFile("a.json", line, start);
    IngestAppends([], [r]);
    var p1 := Progress(IngestAll([], [r]), Some(r.time), Some(FormatStamp(r.time)));
    assert AdvanceFile(p0, a) == p1;
    assert FileData(b, Some(r.time)) == [] && FileLatest(b, Some(r.time)) == Some(r.time);
    assert AdvanceFile(p1, b) == p1;
    assert [a, b][0] == a && [a, b][1..] == [b] && [b][0] == b && [b][1..] == [];
    assert AdvancingPoll(p1, [], {}) == p1;
    assert AdvancingPoll(p1, [b], {}) == AdvancingPoll(p1, [], {});
    assert AdvancingPoll(p0, [a, b], {}) == AdvancingPoll(p1, [b], {});
  }

  /** A detection line: its SystemTime in ISO form with a fraction, closed by the rest of the record. */
  function DetectionLine(t: Moment, fraction: string): string {
    SystemTimePattern.prefix + (IsoText(t) + "." + fraction) + ['"'] + "}"
  }

  /** Such a line is a fresh record, at its own time, against any earlier bookmark. */
  lemma {:induction false} DetectionLineFresh(start: Moment, t: Moment, fraction: string)
    requires Earlier(start, t) && t.micro == 0 && '"' !in fraction && '\n' !in fraction
    ensures Classify(DetectionLine(t, fraction), Some(start)).Fresh?
    ensures Classify(DetectionLine(t, fraction), Some(start)).record.time == t
  {
    IsoLineTime(t, fraction, "}");
  }

  /** The regression for concrete times: a 10:00 detection is ingested, yet 08:00 is left on file. */
  lemma {:induction false} PollBookmarkRegressesExample(start: Moment, t: Moment)
    requires start == DateTime(2024, 5, 1, 8, 0, 0, 0) && t == DateTime(2024, 5, 1, 10, 0, 0, 0)
    ensures var files := [LogFile("a.json", true, Some([DetectionLine(t, "123")])), LogFile("b.json", true, Some([]))];
            var rows := PollRows([], files, {}, Some(start));
            && |rows| == 1 && rows[0].time == Some(t)
            && ReadBookmark(PollBookmark(None, files, {}, Some(start))) == Some(start)
  {
    DetectionLineFresh(start, t, "123");
    PollBookmarkRegresses(start, DetectionLine(t, "123"));
  }
}

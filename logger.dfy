/**
 * `logger.py` as it runs: the journal `anomaly.csv` and the archive
 * `anomaly_archive.csv` are files whose rows the functions rewrite, the
 * suppression cache is a dictionary the logging loop updates entry by entry,
 * and `datetime.now()` (and the cutoff seven days before it) are parameters.
 * The functions below say what one run of each function of logger.py leaves
 * behind; the methods of `AnomalyFiles` do it step by step, as the source
 * does, and are proved to leave exactly that.
 */
module AnomalyLog {
  import opened Wrappers
  import opened Stamps
  import opened Store
  import opened Journal

  /** The two files: their rows, or None when the file does not exist. */
  datatype Files = Files(journal: Option<seq<Row>>, archive: Option<seq<Row>>)

  // ---------------------------------------------------------------------------
  // log_anomalies (logger.py:121-137)

  /**
   * The journal `log_anomalies` leaves: untouched when no outlier is
   * accepted (logger.py:136), rewritten with the accepted rows otherwise;
   * None where it raises (an outlier without a time, or a journal that
   * `save_logged_anomalies` cannot read).
   */
  function Logged(journal: Option<seq<Row>>, anomalies: seq<Outlier>, logged: map<Key, Moment>, now: Moment,
                  parse: string -> Option<Moment>): Option<Option<seq<Row>>> {
    var (b, fine) := LogScan(anomalies, logged, now);
    if !fine then None
    else if b.picked == [] then Some(journal)
    else
      var j :- Rewritten(journal, RowsOf(b.picked), parse);
      Some(Some(j))
  }

  /** An outlier without a time ends the scan: what follows it changes nothing. */
  lemma {:induction false} LogScanStops(s: seq<Outlier>, k: nat, logged: map<Key, Moment>, now: Moment)
    requires k <= |s| && !LogScan(s[..k], logged, now).1
    ensures LogScan(s, logged, now) == LogScan(s[..k], logged, now)
  {
    if k < |s| {
      var init := s[..|s| - 1];
      assert init[..k] == s[..k];
      LogScanStops(init, k, logged, now);
    } else {
      assert s[..k] == s;
    }
  }

  /**
   * When some outlier is accepted, the journal afterwards is the header and
   * exactly its old rows and the accepted ones, newest first; when none is,
   * the journal is left as it was.
   */
  lemma LoggedKeepsRows(journal: Option<seq<Row>>, anomalies: seq<Outlier>, logged: map<Key, Moment>, now: Moment,
                        parse: string -> Option<Moment>)
    requires Logged(journal, anomalies, logged, now, parse).Some?
    ensures var b := LogScan(anomalies, logged, now).0;
            var after := Logged(journal, anomalies, logged, now, parse).value;
            && (b.picked == [] ==> after == journal)
            && (b.picked != [] ==>
                  && after.Some? && after.value != [] && after.value[0] == Headers
                  && multiset(after.value[1..]) == multiset(RowsOf(b.picked)) + multiset(ExistingLogs(journal).value))
  {
    var b := LogScan(anomalies, logged, now).0;
    if b.picked != [] {
      RewriteKeepsEverything(journal, RowsOf(b.picked), now, parse);
    }
  }

  /** Logging leaves a journal that is newest first, or the journal it was given. */
  lemma LoggedKeepsOrder(journal: Option<seq<Row>>, anomalies: seq<Outlier>, logged: map<Key, Moment>, now: Moment,
                         parse: string -> Option<Moment>)
    requires Logged(journal, anomalies, logged, now, parse).Some? && InOrder(journal, parse)
    ensures InOrder(Logged(journal, anomalies, logged, now, parse).value, parse)
  {
    var b := LogScan(anomalies, logged, now).0;
    if b.picked != [] {
      RewrittenNewestFirst(journal, RowsOf(b.picked), parse);
    }
  }

  /**
   * A journal the cache could be loaded from and that logging then left has
   * a header and a time in every row.
   */
  lemma LoggedTimed(journal: Option<seq<Row>>, anomalies: seq<Outlier>, logged: map<Key, Moment>, now: Moment,
                    parse: string -> Option<Moment>)
    requires LoadCache(journal, parse).Some? && Logged(journal, anomalies, logged, now, parse).Some?
    ensures var after := Logged(journal, anomalies, logged, now, parse).value;
            after.None? || (after.value != [] && forall i :: 1 <= i < |after.value| ==> Timed(after.value[i], parse))
  {
    var b := LogScan(anomalies, logged, now).0;
    if b.picked != [] {
      RewrittenNewestFirst(journal, RowsOf(b.picked), parse);
    } else if journal.Some? {
      var rows := journal.value;
      LoadedCache(rows, ("", None), parse);
      assert forall i :: 1 <= i < |rows| ==> rows[i] == rows[1..][i - 1];
    }
  }

  // ---------------------------------------------------------------------------
  // archive_old_anomalies (logger.py:87-119)

  /**
   * logger.py:113-119: nothing is appended when no row is old; otherwise
   * the old rows go after the archive's rows, preceded by the journal's
   * header only when the archive does not exist yet.
   */
  function Appended(archive: Option<seq<Row>>, header: Row, moved: seq<Row>): Option<seq<Row>> {
    if moved == [] then archive
    else Some((if archive.None? then [header] else archive.value) + moved)
  }

  /**
   * The files `archive_old_anomalies` leaves, with `cutoff` for
   * `datetime.now() - timedelta(days=7)`: no journal, no change
   * (logger.py:89-90); an empty journal raises at the header and a row
   * without a readable time raises in the loop, before anything is written.
   */
  function Archived(f: Files, cutoff: Moment, parse: string -> Option<Moment>): (r: Option<Files>)
    ensures f.journal.None? ==> r == Some(f)
    ensures f.journal == Some([]) ==> r.None?
  {
    match f.journal
    case None => Some(f)
    case Some(rows) =>
      if rows == [] then None
      else
        var body := rows[1..];
        if forall i :: 0 <= i < |body| ==> Timed(body[i], parse) then
          Some(Files(Some([rows[0]] + KeptRows(body, cutoff, parse)),
                     Appended(f.archive, rows[0], OldRows(body, cutoff, parse))))
        else None
  }

  /**
   * The archive is append-only: its old rows stay in front, the moved rows
   * follow them, a header is added only to an archive that did not exist,
   * and nothing is added (not even a file) when no row moves.
   */
  lemma AppendOnly(archive: Option<seq<Row>>, header: Row, moved: seq<Row>)
    ensures var a := Appended(archive, header, moved);
            && (archive.Some? ==> a.Some? && |archive.value| <= |a.value|
                                  && a.value[..|archive.value|] == archive.value && a.value[|archive.value|..] == moved)
            && (archive.None? ==> (a.None? <==> moved == []) && (a.Some? ==> a.value == [header] + moved))
  {
    if archive.Some? && moved != [] {
      var a := archive.value + moved;
      assert a[..|archive.value|] == archive.value && a[|archive.value|..] == moved;
    } else if archive.Some? {
      assert archive.value[|archive.value|..] == [];
    }
  }

  /**
   * Archiving keeps the journal's header, keeps exactly the rows that are
   * not old and moves exactly the old ones, losing and duplicating none.
   */
  lemma ArchiveSplitsJournal(f: Files, cutoff: Moment)
    requires f.journal.Some? && Archived(f, cutoff, ParseStamp).Some?
    ensures var rows := f.journal.value;
            var r := Archived(f, cutoff, ParseStamp).value;
            var moved := OldRows(rows[1..], cutoff, ParseStamp);
            && rows != [] && r.journal.Some? && r.journal.value != [] && r.journal.value[0] == rows[0]
            && (forall row :: row in r.journal.value[1..] <==> row in rows[1..] && !IsOld(row, cutoff, ParseStamp))
            && (forall row :: row in moved <==> row in rows[1..] && IsOld(row, cutoff, ParseStamp))
            && multiset(r.journal.value[1..]) + multiset(moved) == multiset(rows[1..])
            && r.journal.value[1..] == KeptRows(rows[1..], cutoff, ParseStamp)
            && (NewestFirst(rows[1..], ParseStamp) ==>
                  NewestFirst(r.journal.value[1..], ParseStamp) && NewestFirst(moved, ParseStamp))
            && r.archive == Appended(f.archive, rows[0], moved)
  {
    var rows := f.journal.value;
    var body := rows[1..];
    var kept := KeptRows(body, cutoff, ParseStamp);
    assert ([rows[0]] + kept)[1..] == kept;
    KeptExactlyRecent(body, cutoff, ParseStamp);
    ArchivedExactlyOld(body, cutoff, ParseStamp);
    PartitionCounts(body, cutoff, ParseStamp);
    if NewestFirst(body, ParseStamp) {
      SplitKeepsNewestFirst(body, cutoff, ParseStamp);
    }
  }

  /** Archiving succeeds exactly when there is no journal, or it has a header and every row a time. */
  lemma ArchivedIff(f: Files, cutoff: Moment, parse: string -> Option<Moment>)
    ensures Archived(f, cutoff, parse).Some? <==>
              f.journal.None? || (f.journal.value != [] && forall i :: 1 <= i < |f.journal.value| ==> Timed(f.journal.value[i], parse))
  {
    if f.journal.Some? && f.journal.value != [] {
      var rows := f.journal.value;
      assert forall i :: 0 <= i < |rows[1..]| ==> rows[1..][i] == rows[i + 1];
    }
  }

  /** A journal whose rows after the header are newest first; a missing or empty journal trivially is. */
  predicate InOrder(journal: Option<seq<Row>>, parse: string -> Option<Moment>) {
    journal.Some? && journal.value != [] ==> NewestFirst(journal.value[1..], parse)
  }

  /** Archiving keeps the journal newest first. */
  lemma ArchivedKeepsOrder(f: Files, cutoff: Moment, parse: string -> Option<Moment>)
    requires Archived(f, cutoff, parse).Some? && InOrder(f.journal, parse)
    ensures InOrder(Archived(f, cutoff, parse).value.journal, parse)
  {
    if f.journal.Some? {
      var rows := f.journal.value;
      var kept := KeptRows(rows[1..], cutoff, parse);
      assert ([rows[0]] + kept)[1..] == kept;
      SplitKeepsNewestFirst(rows[1..], cutoff, parse);
    }
  }

  /** Every row left in the journal after archiving has a time, and it is not before the cutoff. */
  lemma ArchiveLeavesRecent(f: Files, cutoff: Moment)
    requires Archived(f, cutoff, ParseStamp).Some? && Archived(f, cutoff, ParseStamp).value.journal.Some?
    ensures var j := Archived(f, cutoff, ParseStamp).value.journal.value;
            forall i :: 1 <= i < |j| ==> Timed(j[i], ParseStamp) && !Earlier(ParseStamp(j[i][0]).value, cutoff)
  {
    var rows := f.journal.value;
    var body := rows[1..];
    var j := Archived(f, cutoff, ParseStamp).value.journal.value;
    ArchiveSplitsJournal(f, cutoff);
    forall i | 1 <= i < |j|
      ensures Timed(j[i], ParseStamp) && !Earlier(ParseStamp(j[i][0]).value, cutoff)
    {
      assert j[i] == j[1..][i - 1];
      assert j[i] in body && !IsOld(j[i], cutoff, ParseStamp);
      var k :| 0 <= k < |body| && body[k] == j[i];
    }
  }

  // ---------------------------------------------------------------------------
  // detect_and_log_anomalies (logger.py:139-144)

  /**
   * One run: rebuild the cache, fetch the outliers of `table`, journal the
   * ones not seen within the hour, archive the old rows; None where a step
   * raises, which ends the run.
   */
  function Cycle(f: Files, table: seq<Alert>, now: Moment, cutoff: Moment): Option<Files> {
    var cache :- LoadCache(f.journal, ParseStamp);
    var journal :- Logged(f.journal, FetchAnomalies(table), cache, now, ParseStamp);
    Archived(Files(journal, f.archive), cutoff, ParseStamp)
  }

  /** After a run, no row older than the cutoff is left in the journal. */
  lemma CycleLeavesRecent(f: Files, table: seq<Alert>, now: Moment, cutoff: Moment)
    requires Cycle(f, table, now, cutoff).Some? && Cycle(f, table, now, cutoff).value.journal.Some?
    ensures var j := Cycle(f, table, now, cutoff).value.journal.value;
            forall i :: 1 <= i < |j| ==> Timed(j[i], ParseStamp) && !Earlier(ParseStamp(j[i][0]).value, cutoff)
  {
    var cache := LoadCache(f.journal, ParseStamp).value;
    var journal := Logged(f.journal, FetchAnomalies(table), cache, now, ParseStamp).value;
    ArchiveLeavesRecent(Files(journal, f.archive), cutoff);
  }

  /** Once the cache is loaded and the outliers logged, archiving cannot raise. */
  lemma ArchiveAfterLogging(f: Files, anomalies: seq<Outlier>, logged: map<Key, Moment>, now: Moment, cutoff: Moment,
                            parse: string -> Option<Moment>)
    requires LoadCache(f.journal, parse).Some? && Logged(f.journal, anomalies, logged, now, parse).Some?
    ensures Archived(Files(Logged(f.journal, anomalies, logged, now, parse).value, f.archive), cutoff, parse).Some?
  {
    LoggedTimed(f.journal, anomalies, logged, now, parse);
    ArchivedIff(Files(Logged(f.journal, anomalies, logged, now, parse).value, f.archive), cutoff, parse);
  }

  /** A run fails only while loading the cache or logging, before either file is written. */
  lemma CycleFailsBeforeWriting(f: Files, table: seq<Alert>, now: Moment, cutoff: Moment)
    ensures Cycle(f, table, now, cutoff).None? <==>
              LoadCache(f.journal, ParseStamp).None?
              || Logged(f.journal, FetchAnomalies(table), LoadCache(f.journal, ParseStamp).value, now, ParseStamp).None?
  {
    var cache := LoadCache(f.journal, ParseStamp);
    if cache.Some? && Logged(f.journal, FetchAnomalies(table), cache.value, now, ParseStamp).Some? {
      ArchiveAfterLogging(f, FetchAnomalies(table), cache.value, now, cutoff, ParseStamp);
    }
  }

  /** A journal that is newest first before a run is newest first after it. */
  lemma CycleKeepsOrder(f: Files, table: seq<Alert>, now: Moment, cutoff: Moment)
    requires Cycle(f, table, now, cutoff).Some? && InOrder(f.journal, ParseStamp)
    ensures InOrder(Cycle(f, table, now, cutoff).value.journal, ParseStamp)
  {
    var cache := LoadCache(f.journal, ParseStamp).value;
    var journal := Logged(f.journal, FetchAnomalies(table), cache, now, ParseStamp).value;
    LoggedKeepsOrder(f.journal, FetchAnomalies(table), cache, now, ParseStamp);
    ArchivedKeepsOrder(Files(journal, f.archive), cutoff, ParseStamp);
  }

  /** The journal and its archive, updated in place by the functions of logger.py. */
  class AnomalyFiles {
    var journal: Option<seq<Row>>
    var archive: Option<seq<Row>>

    constructor (journal: Option<seq<Row>>, archive: Option<seq<Row>>)
      ensures this.journal == journal && this.archive == archive
    {
      this.journal := journal;
      this.archive := archive;
    }

    /** logger.py:49-63: the cache rebuilt from the journal, None where reading it raises. */
    method LoadLoggedAnomalies(strptime: string -> Option<Moment>) returns (cache: Option<map<Key, Moment>>)
      ensures cache == LoadCache(journal, strptime)
    {
      if journal.None? {
        return Some(map[]);
      }
      var rows := journal.value;
      if rows == [] {
        return None;
      }
      var body := rows[1..];
      var logged: map<Key, Moment> := map[];
      for i := 0 to |body|
        invariant forall j :: 0 <= j < i ==> Readable(body[j], strptime)
        invariant logged == CacheOf(body[..i], strptime)
      {
        var row := body[i];
        assert body[..i + 1][..i] == body[..i] && body[..i + 1][i] == row;
        if |row| < 2 {
          assert !Readable(body[i], strptime);
          return None;
        }
        var systemTime, providerName := row[0], row[1];
        var lastSeen := strptime(systemTime);
        if lastSeen.None? {
          assert !Readable(body[i], strptime);
          return None;
        }
        logged := logged[(systemTime, Some(providerName)) := lastSeen.value];
      }
      assert body[..|body|] == body;
      return Some(logged);
    }

    /**
     * logger.py:65-85: the new rows and the existing ones, sorted newest
     * first by their parsed time (a stable sort), are written under the
     * header; where a time cannot be parsed the sort raises and the file is
     * not touched.
     */
    method SaveLoggedAnomalies(anomalies: seq<Row>, strptime: string -> Option<Moment>) returns (ok: bool)
      modifies this`journal
      ensures ok == Rewritten(old(journal), anomalies, strptime).Some?
      ensures journal == if ok then Rewritten(old(journal), anomalies, strptime) else old(journal)
    {
      var existingLogs: seq<Row> := [];
      if journal.Some? {
        if journal.value == [] {
          return false;
        }
        existingLogs := journal.value[1..];
      }
      var allLogs := anomalies + existingLogs;
      // The sort keys, computed first as `list.sort` does.
      var keyed: seq<Entry> := [];
      for i := 0 to |allLogs|
        invariant Entries(allLogs[..i], strptime) == Some(keyed)
      {
        assert allLogs[..i + 1][..i] == allLogs[..i] && allLogs[..i + 1][i] == allLogs[i];
        var e := EntryOf(allLogs[i], strptime);
        if e.None? {
          EntriesIff(allLogs, strptime);
          return false;
        }
        keyed := keyed + [e.value];
      }
      assert allLogs[..|allLogs|] == allLogs;
      // Newest first; among equal times the earlier row stays ahead.
      var sorted: seq<Entry> := [];
      var k := |keyed|;
      while k > 0
        invariant 0 <= k <= |keyed|
        invariant sorted == SortDesc(keyed[k..])
      {
        k := k - 1;
        assert keyed[k..][1..] == keyed[k + 1..];
        sorted := Insert(keyed[k], sorted);
      }
      assert ExistingLogs(old(journal)) == Some(existingLogs);
      assert keyed[0..] == keyed;
      journal := Some([Headers] + Rows(sorted));
      return true;
    }

    /**
     * logger.py:121-137: each outlier not seen within the hour is cached at
     * `now` and its row collected; the rows are saved when there are any.
     * The dictionary the loop updates is returned.
     */
    method LogAnomalies(anomalies: seq<Outlier>, logged: map<Key, Moment>, now: Moment, strptime: string -> Option<Moment>)
      returns (ok: bool, cache: map<Key, Moment>)
      modifies this`journal
      ensures cache == LogScan(anomalies, logged, now).0.logged
      ensures ok == Logged(old(journal), anomalies, logged, now, strptime).Some?
      ensures journal == if ok then Logged(old(journal), anomalies, logged, now, strptime).value else old(journal)
    {
      cache := logged;
      var newLogs: seq<Row> := [];
      ghost var picked: seq<Outlier> := [];
      for i := 0 to |anomalies|
        invariant forall j :: 0 <= j < |picked| ==> picked[j].time.Some?
        invariant LogScan(anomalies[..i], logged, now) == (Batch(cache, picked), true)
        invariant newLogs == RowsOf(picked)
        invariant journal == old(journal)
      {
        var anomaly := anomalies[i];
        assert anomalies[..i + 1][..i] == anomalies[..i] && anomalies[..i + 1][i] == anomaly;
        if anomaly.time.None? {
          LogScanStops(anomalies, i + 1, logged, now);
          return false, cache;
        }
        var systemTime := FormatStamp(anomaly.time.value);
        var providerName := anomaly.provider;
        if Suppressed(cache, (systemTime, providerName), now) {
          continue;
        }
        cache := cache[(systemTime, providerName) := now];
        RowsOfSnoc(picked, anomaly);
        newLogs := newLogs + [[systemTime] + Columns(anomaly)];
        picked := picked + [anomaly];
      }
      assert anomalies[..|anomalies|] == anomalies;
      assert LogScan(anomalies, logged, now) == (Batch(cache, picked), true);
      if newLogs != [] {
        ok := SaveLoggedAnomalies(newLogs, strptime);
      } else {
        ok := true;
      }
    }

    /**
     * logger.py:87-119: the rows before the cutoff are appended to the
     * archive and the others written back under the journal's header.
     */
    method ArchiveOldAnomalies(cutoff: Moment, strptime: string -> Option<Moment>) returns (ok: bool)
      modifies this
      ensures ok == Archived(old(Files(journal, archive)), cutoff, strptime).Some?
      ensures Files(journal, archive) == if ok then Archived(old(Files(journal, archive)), cutoff, strptime).value else old(Files(journal, archive))
    {
      if journal.None? {
        return true;
      }
      var rows := journal.value;
      if rows == [] {
        return false;
      }
      var headers := rows[0];
      var body := rows[1..];
      var anomaliesToKeep: seq<Row> := [];
      var anomaliesToArchive: seq<Row> := [];
      for i := 0 to |body|
        invariant forall j :: 0 <= j < i ==> Timed(body[j], strptime)
        invariant anomaliesToKeep == KeptRows(body[..i], cutoff, strptime)
        invariant anomaliesToArchive == OldRows(body[..i], cutoff, strptime)
      {
        var row := body[i];
        assert body[..i + 1][..i] == body[..i] && body[..i + 1][i] == row;
        if row == [] {
          return false;
        }
        var systemTime := strptime(row[0]);
        if systemTime.None? {
          assert !Timed(body[i], strptime);
          return false;
        }
        if Earlier(systemTime.value, cutoff) {
          anomaliesToArchive := anomaliesToArchive + [row];
        } else {
          anomaliesToKeep := anomaliesToKeep + [row];
        }
      }
      assert body[..|body|] == body;
      journal := Some([headers] + anomaliesToKeep);
      if anomaliesToArchive != [] {
        var archiveExists := archive.Some?;
        var appended := if archiveExists then archive.value else [headers];
        archive := Some(appended + anomaliesToArchive);
      }
      return true;
    }

    /** logger.py:139-144: one run; a step that raises ends it, leaving what earlier steps wrote. */
    method DetectAndLogAnomalies(table: seq<Alert>, now: Moment, cutoff: Moment) returns (ok: bool)
      modifies this
      ensures ok == Cycle(old(Files(journal, archive)), table, now, cutoff).Some?
      ensures ok ==> Files(journal, archive) == Cycle(old(Files(journal, archive)), table, now, cutoff).value
      ensures !ok ==> journal == old(journal) && archive == old(archive)
    {
      ghost var before := Files(journal, archive);
      var loggedAnomalies := LoadLoggedAnomalies(ParseStamp);
      if loggedAnomalies.None? {
        return false;
      }
      var anomalies := FetchAnomalies(table);
      var cache;
      ok, cache := LogAnomalies(anomalies, loggedAnomalies.value, now, ParseStamp);
      if !ok {
        return false;
      }
      ArchiveAfterLogging(before, anomalies, loggedAnomalies.value, now, cutoff, ParseStamp);
      ok := ArchiveOldAnomalies(cutoff, ParseStamp);
    }
  }
}

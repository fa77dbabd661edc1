/**
 * The anomaly journal of `logger.py`, as values: the CSV rows of
 * `anomaly.csv`, the `logged_anomalies` cache that suppresses an outlier
 * seen within the last hour, the stable newest-first order the journal is
 * rewritten in, and the seven-day split between the journal and its archive.
 *
 * A CSV file is the sequence of its rows, each a sequence of fields; its
 * first row is the header. A file that does not exist is None.
 */
module Journal {
  import opened Wrappers
  import opened Stamps
  import opened Store

  type Row = seq<string>

  /** A non-empty sequence is its front followed by its last element. */
  lemma LastSplit<T>(s: seq<T>)
    requires s != []
    ensures s == s[..|s| - 1] + [s[|s| - 1]]
  {
  }

  /** What a prefix holds, the whole holds. */
  lemma PrefixIn<T>(s: seq<T>, k: nat)
    requires k <= |s|
    ensures forall x :: x in s[..k] ==> x in s
  {
  }

  /** logger.py:67: the header `save_logged_anomalies` writes. */
  const Headers: Row := ["system_time", "provider_name", "title", "tags", "description", "computer_name", "user_id", "event_id"]

  /**
   * A row of the outlier query (logger.py:34-38), in its column order: the
   * event time and provider, then the fields the journal copies verbatim.
   */
  datatype Outlier = Outlier(time: Option<Moment>, provider: Option<string>, title: Option<string>,
                             tags: Option<string>, description: Option<string>, computer: Option<string>,
                             user: Option<string>, eventId: Option<string>)

  // ---------------------------------------------------------------------------
  // fetch_anomalies (logger.py:29-47): the DBSCAN noise rows, in table order.

  function OutlierOf(a: Alert): Outlier {
    Outlier(a.time, a.provider, a.title, a.tags, a.description, a.computer, a.user, a.eventId)
  }

  /** `WHERE dbscan_cluster = -1`, in table order. */
  function FetchAnomalies(table: seq<Alert>): (r: seq<Outlier>)
    ensures |r| <= |table|
  {
    if table == [] then []
    else
      var last := table[|table| - 1];
      FetchAnomalies(table[..|table| - 1]) + (if last.cluster == Some(-1) then [OutlierOf(last)] else [])
  }

  /** An outlier is fetched exactly when some row labelled -1 projects to it. */
  lemma {:induction false} FetchedIff(table: seq<Alert>, o: Outlier)
    ensures o in FetchAnomalies(table) <==> exists i :: 0 <= i < |table| && table[i].cluster == Some(-1) && OutlierOf(table[i]) == o
  {
    if table != [] {
      var init := table[..|table| - 1];
      FetchedIff(init, o);
      if exists i :: 0 <= i < |init| && init[i].cluster == Some(-1) && OutlierOf(init[i]) == o {
        var i :| 0 <= i < |init| && init[i].cluster == Some(-1) && OutlierOf(init[i]) == o;
        assert table[i] == init[i];
      }
      if exists i :: 0 <= i < |table| && table[i].cluster == Some(-1) && OutlierOf(table[i]) == o {
        var i :| 0 <= i < |table| && table[i].cluster == Some(-1) && OutlierOf(table[i]) == o;
        if i < |init| {
          assert init[i] == table[i];
        }
      }
    }
  }

  /**
   * The query keeps the table's rows in order and one outlier per row labelled
   * -1: fetching a concatenation fetches each part in turn, and a single row
   * gives its outlier exactly when it is labelled -1.
   */
  lemma {:induction false} FetchAppend(a: seq<Alert>, b: seq<Alert>)
    ensures FetchAnomalies(a + b) == FetchAnomalies(a) + FetchAnomalies(b)
    decreases |b|
  {
    if b == [] {
      assert a + b == a;
      assert FetchAnomalies(a) + [] == FetchAnomalies(a);
    } else {
      var init, last := b[..|b| - 1], b[|b| - 1];
      assert (a + b)[..|a + b| - 1] == a + init && (a + b)[|a + b| - 1] == last;
      FetchAppend(a, init);
    }
  }

  lemma FetchOne(row: Alert)
    ensures FetchAnomalies([row]) == if row.cluster == Some(-1) then [OutlierOf(row)] else []
  {
    assert [row][..0] == [];
  }

  // ---------------------------------------------------------------------------
  // Journal rows.

  /** What `csv.writer` writes for a value: None becomes the empty field. */
  function CsvField(v: Option<string>): string {
    v.GetOr("")
  }

  /** `anomaly[1:]` as the CSV writer renders it: the seven columns after the time. */
  function Columns(o: Outlier): seq<string> {
    [CsvField(o.provider), CsvField(o.title), CsvField(o.tags),
     CsvField(o.description), CsvField(o.computer), CsvField(o.user), CsvField(o.eventId)]
  }

  /** logger.py:127, 133: the event time as `%Y-%m-%d %H:%M:%S`, then the other seven columns. */
  function JournalRowOf(o: Outlier): (r: Row)
    requires o.time.Some?
    ensures |r| == 8 && r[0] == FormatStamp(o.time.value) && r[1] == CsvField(o.provider)
  {
    [FormatStamp(o.time.value)] + Columns(o)
  }

  /** The rows written for accepted outliers, in order. */
  function RowsOf(picked: seq<Outlier>): (r: seq<Row>)
    requires forall i :: 0 <= i < |picked| ==> picked[i].time.Some?
    ensures |r| == |picked|
    ensures forall i :: 0 <= i < |r| ==> r[i] == JournalRowOf(picked[i])
  {
    if picked == [] then [] else [JournalRowOf(picked[0])] + RowsOf(picked[1..])
  }

  /** One more accepted outlier adds its row at the end. */
  lemma {:induction false} RowsOfSnoc(picked: seq<Outlier>, o: Outlier)
    requires forall i :: 0 <= i < |picked| ==> picked[i].time.Some?
    requires o.time.Some?
    ensures RowsOf(picked + [o]) == RowsOf(picked) + [JournalRowOf(o)]
  {
    if picked == [] {
      assert picked + [o] == [o];
    } else {
      assert (picked + [o])[0] == picked[0] && (picked + [o])[1..] == picked[1..] + [o];
      RowsOfSnoc(picked[1..], o);
    }
  }

  /**
   * A journal row with the time `datetime.strptime(row[0], "%Y-%m-%d %H:%M:%S")`
   * gives it: what `sort(key=...)` and the archive loop compare.
   */
  datatype Entry = Entry(stamp: Moment, row: Row)

  /**
   * A row with its time as `parse` reads its first field; None where the
   * row has no first field (IndexError) or `parse` rejects it (ValueError).
   *
   * `parse` stands for the library call
   * `datetime.strptime(text, "%Y-%m-%d %H:%M:%S")`; a run of the program
   * uses `ParseStamp`, its model. The functions of this module take it as a
   * value, so their lemmas hold whatever the parser accepts.
   */
  function EntryOf(row: Row, parse: string -> Option<Moment>): Option<Entry> {
    if row != [] && parse(row[0]).Some? then Some(Entry(parse(row[0]).value, row)) else None
  }

  /** Each row with its time, in order; None where some row has none. */
  function Entries(rows: seq<Row>, parse: string -> Option<Moment>): (r: Option<seq<Entry>>)
    ensures r.Some? ==> |r.value| == |rows|
  {
    if rows == [] then Some([])
    else
      var es :- Entries(rows[..|rows| - 1], parse);
      var e :- EntryOf(rows[|rows| - 1], parse);
      Some(es + [e])
  }

  /** The entries exist exactly when every row has one, and then they are those, in order. */
  lemma {:induction false} EntriesIff(rows: seq<Row>, parse: string -> Option<Moment>)
    ensures Entries(rows, parse).Some? <==> forall i :: 0 <= i < |rows| ==> EntryOf(rows[i], parse).Some?
    ensures Entries(rows, parse).Some? ==> forall i :: 0 <= i < |rows| ==> Entries(rows, parse).value[i] == EntryOf(rows[i], parse).value
  {
    if rows != [] {
      var init := rows[..|rows| - 1];
      EntriesIff(init, parse);
      assert forall i :: 0 <= i < |init| ==> init[i] == rows[i];
    }
  }

  /** The entries carry the rows, in order. */
  lemma EntriesRows(rows: seq<Row>, parse: string -> Option<Moment>)
    requires Entries(rows, parse).Some?
    ensures Rows(Entries(rows, parse).value) == rows
  {
    EntriesIff(rows, parse);
    RowsAt(Entries(rows, parse).value);
  }

  /** Reading a concatenation reads each part. */
  lemma {:induction false} EntriesAppend(a: seq<Row>, b: seq<Row>, parse: string -> Option<Moment>)
    ensures Entries(a + b, parse) ==
            (if Entries(a, parse).Some? && Entries(b, parse).Some? then Some(Entries(a, parse).value + Entries(b, parse).value) else None)
    decreases |b|
  {
    if b == [] {
      assert a + b == a;
      if Entries(a, parse).Some? {
        assert Entries(a, parse).value + [] == Entries(a, parse).value;
      }
    } else {
      var bi := b[..|b| - 1];
      var x := b[|b| - 1];
      assert (a + b)[..|a + b| - 1] == a + bi;
      assert (a + b)[|a + b| - 1] == x;
      EntriesAppend(a, bi, parse);
      if Entries(a, parse).Some? && Entries(b, parse).Some? {
        var ea, ei, e := Entries(a, parse).value, Entries(bi, parse).value, EntryOf(x, parse).value;
        assert Entries(b, parse).value == ei + [e];
        assert Entries(a + b, parse).value == (ea + ei) + [e];
        assert (ea + ei) + [e] == ea + (ei + [e]);
      }
    }
  }

  /** The rows of the entries, in order. */
  function Rows(es: seq<Entry>): (r: seq<Row>)
    ensures |r| == |es|
  {
    if es == [] then [] else [es[0].row] + Rows(es[1..])
  }

  lemma {:induction false} RowsAt(es: seq<Entry>)
    ensures forall i :: 0 <= i < |es| ==> Rows(es)[i] == es[i].row
  {
    if es != [] {
      RowsAt(es[1..]);
      assert forall i :: 1 <= i < |es| ==> es[1..][i - 1] == es[i];
    }
  }

  lemma {:induction false} RowsAppend(a: seq<Entry>, b: seq<Entry>)
    ensures Rows(a + b) == Rows(a) + Rows(b)
  {
    if a == [] {
      assert a + b == b;
    } else {
      assert (a + b)[0] == a[0] && (a + b)[1..] == a[1..] + b;
      RowsAppend(a[1..], b);
    }
  }

  // ---------------------------------------------------------------------------
  // load_logged_anomalies (logger.py:49-63): the suppression cache.

  /** The cache key: the event time as text and the provider. */
  type Key = (string, Option<string>)

  function KeyOf(o: Outlier): Key
    requires o.time.Some?
  {
    (FormatStamp(o.time.value), o.provider)
  }

  /** The key `load_logged_anomalies` files a journal row under: `(row[0], row[1])`. */
  function RowKey(row: Row): Key
    requires |row| >= 2
  {
    (row[0], Some(row[1]))
  }

  /** A row the loop of logger.py:58-62 gets through: two fields and a time `parse` accepts. */
  predicate Readable(row: Row, parse: string -> Option<Moment>) {
    |row| >= 2 && parse(row[0]).Some?
  }

  /** logger.py:58-62: each row maps its key to its own event time, later rows last. */
  function CacheOf(body: seq<Row>, parse: string -> Option<Moment>): (m: map<Key, Moment>)
    requires forall i :: 0 <= i < |body| ==> Readable(body[i], parse)
  {
    if body == [] then map[]
    else
      var row := body[|body| - 1];
      assert Readable(row, parse);
      CacheOf(body[..|body| - 1], parse)[RowKey(row) := parse(row[0]).value]
  }

  /**
   * The cache holds the key of every row and nothing else, each mapped to
   * the time of a row with that key.
   */
  lemma {:induction false} CacheKeys(body: seq<Row>, key: Key, parse: string -> Option<Moment>)
    requires forall i :: 0 <= i < |body| ==> Readable(body[i], parse)
    ensures key in CacheOf(body, parse) <==> exists i :: 0 <= i < |body| && RowKey(body[i]) == key
    ensures key in CacheOf(body, parse) ==>
              exists i :: 0 <= i < |body| && RowKey(body[i]) == key && CacheOf(body, parse)[key] == parse(body[i][0]).value
  {
    if body != [] {
      var init := body[..|body| - 1];
      LastSplit(body);
      CacheKeys(init, key, parse);
      if exists i :: 0 <= i < |init| && RowKey(init[i]) == key {
        var i :| 0 <= i < |init| && RowKey(init[i]) == key;
        assert body[i] == init[i];
      }
      if key in CacheOf(init, parse) && key != RowKey(body[|body| - 1]) {
        var i :| 0 <= i < |init| && RowKey(init[i]) == key && CacheOf(init, parse)[key] == parse(init[i][0]).value;
        assert body[i] == init[i];
      }
      if exists i :: 0 <= i < |body| && RowKey(body[i]) == key {
        var i :| 0 <= i < |body| && RowKey(body[i]) == key;
        if i < |init| {
          assert init[i] == body[i];
        }
      }
    }
  }

  /**
   * logger.py:58-62 over the rows after the header, with their times read
   * by `parse`: None where a row is shorter than two fields (IndexError) or
   * its time does not parse (ValueError).
   */
  function CacheFrom(body: seq<Row>, parse: string -> Option<Moment>): Option<map<Key, Moment>> {
    if forall i :: 0 <= i < |body| ==> Readable(body[i], parse) then Some(CacheOf(body, parse)) else None
  }

  /**
   * A rebuilt cache maps the key of every row, and only those, to the time
   * its own first field reads as; every key it holds has a provider.
   */
  lemma CacheFromKeys(body: seq<Row>, key: Key, parse: string -> Option<Moment>)
    requires CacheFrom(body, parse).Some?
    ensures key in CacheFrom(body, parse).value <==> exists i :: 0 <= i < |body| && |body[i]| >= 2 && RowKey(body[i]) == key
    ensures key in CacheFrom(body, parse).value ==> key.1.Some? && parse(key.0) == Some(CacheFrom(body, parse).value[key])
  {
    CacheKeys(body, key, parse);
  }

  /** A journal of one row caches that row's key at its time. */
  lemma CacheFromOne(row: Row, t: Moment, parse: string -> Option<Moment>)
    requires |row| >= 2 && parse(row[0]) == Some(t)
    ensures CacheFrom([row], parse) == Some(map[RowKey(row) := t])
  {
    var none: seq<Row> := [];
    assert [row][..0] == none && [row][0] == row;
    assert Readable(row, parse);
    assert CacheOf([row], parse) == CacheOf(none, parse)[RowKey(row) := t];
  }

  /**
   * logger.py:51-62: a missing journal gives the empty cache; an empty file
   * raises StopIteration at the header; the rows after it are read with
   * `datetime.strptime`.
   */
  function LoadCache(journal: Option<seq<Row>>, parse: string -> Option<Moment>): (r: Option<map<Key, Moment>>)
    ensures journal.None? ==> r == Some(map[])
    ensures journal == Some([]) ==> r.None?
  {
    match journal
    case None => Some(map[])
    case Some(rows) => if rows == [] then None else CacheFrom(rows[1..], parse)
  }

  /**
   * The rebuilt cache maps the key of every journal row, and only those,
   * to the event time written in that key, not to when it was journaled;
   * it is rebuilt exactly when every row has two fields and a parseable time.
   */
  lemma LoadedCache(rows: seq<Row>, key: Key, parse: string -> Option<Moment>)
    requires rows != []
    ensures var body := rows[1..];
            && (LoadCache(Some(rows), parse).Some? <==> forall i :: 0 <= i < |body| ==> |body[i]| >= 2 && parse(body[i][0]).Some?)
            && (LoadCache(Some(rows), parse).Some? ==>
                  && (key in LoadCache(Some(rows), parse).value <==> exists i :: 0 <= i < |body| && |body[i]| >= 2 && RowKey(body[i]) == key)
                  && (key in LoadCache(Some(rows), parse).value ==> key.1.Some? && parse(key.0) == Some(LoadCache(Some(rows), parse).value[key])))
  {
    if LoadCache(Some(rows), parse).Some? {
      CacheFromKeys(rows[1..], key, parse);
    }
  }

  /** An outlier without a provider is never found in a rebuilt cache. */
  lemma NullProviderNeverCached(journal: Option<seq<Row>>, o: Outlier, parse: string -> Option<Moment>)
    requires LoadCache(journal, parse).Some? && o.time.Some? && o.provider.None?
    ensures KeyOf(o) !in LoadCache(journal, parse).value
  {
    if journal.Some? {
      LoadedCache(journal.value, KeyOf(o), parse);
    }
  }

  // ---------------------------------------------------------------------------
  // log_anomalies (logger.py:121-137): the one-hour suppression.

  /** logger.py:129: the key is cached and `now - cached <= timedelta(hours=1)`. */
  predicate Suppressed(logged: map<Key, Moment>, key: Key, now: Moment) {
    key in logged && Ticks(now) - Ticks(logged[key]) <= OneHour
  }

  /** A key cached at `now` itself is suppressed: `now - now` is within the hour. */
  lemma SuppressedAtNow(logged: map<Key, Moment>, key: Key, now: Moment)
    requires key in logged && logged[key] == now
    ensures Suppressed(logged, key, now)
  {
  }

  /** The state of the loop: the cache and the outliers accepted so far (`new_logs`). */
  datatype Batch = Batch(logged: map<Key, Moment>, picked: seq<Outlier>)

  /** logger.py:127-133 for one outlier: skip it, or cache it at `now` and keep it. */
  function Accept(b: Batch, o: Outlier, now: Moment): Batch
    requires o.time.Some?
  {
    var key := KeyOf(o);
    if Suppressed(b.logged, key, now) then b
    else Batch(b.logged[key := now], b.picked + [o])
  }

  /**
   * The loop of logger.py:126-134 over the outliers: the batch it leaves,
   * and false when an outlier without a time raised AttributeError at
   * logger.py:127 (the batch is then the one at that point).
   */
  function LogScan(outliers: seq<Outlier>, logged: map<Key, Moment>, now: Moment): (r: (Batch, bool))
    ensures r.1 <==> forall i :: 0 <= i < |outliers| ==> outliers[i].time.Some?
    ensures forall i :: 0 <= i < |r.0.picked| ==> r.0.picked[i].time.Some? && r.0.picked[i] in outliers
  {
    if outliers == [] then (Batch(logged, []), true)
    else
      var init := outliers[..|outliers| - 1];
      var o := outliers[|outliers| - 1];
      var (b, ok) := LogScan(init, logged, now);
      PrefixIn(outliers, |outliers| - 1);
      LastSplit(outliers);
      if !ok || o.time.None? then (b, false) else (Accept(b, o, now), true)
  }

  /**
   * Every accepted outlier has a time, its key is cached at `now`, and no
   * two accepted outliers share a key.
   */
  predicate PickedOnce(b: Batch, now: Moment) {
    && (forall i :: 0 <= i < |b.picked| ==> b.picked[i].time.Some?)
    && (forall i :: 0 <= i < |b.picked| ==> KeyOf(b.picked[i]) in b.logged && b.logged[KeyOf(b.picked[i])] == now)
    && (forall i, j :: 0 <= i < j < |b.picked| ==> KeyOf(b.picked[i]) != KeyOf(b.picked[j]))
  }

  /** One step of the loop keeps `PickedOnce`: a key accepted earlier in the batch is suppressed. */
  lemma AcceptPickedOnce(b: Batch, o: Outlier, now: Moment)
    requires o.time.Some? && PickedOnce(b, now)
    ensures PickedOnce(Accept(b, o, now), now)
  {
    var key := KeyOf(o);
    if !Suppressed(b.logged, key, now) {
      var p, m := b.picked + [o], b.logged[key := now];
      assert Accept(b, o, now) == Batch(m, p);
      forall i | 0 <= i < |b.picked|
        ensures KeyOf(b.picked[i]) != key
      {
        if KeyOf(b.picked[i]) == key {
          SuppressedAtNow(b.logged, key, now);
        }
      }
      forall i | 0 <= i < |p|
        ensures p[i].time.Some? && KeyOf(p[i]) in m && m[KeyOf(p[i])] == now
      {
        if i < |b.picked| {
          assert p[i] == b.picked[i];
        }
      }
      forall i, j | 0 <= i < j < |p|
        ensures KeyOf(p[i]) != KeyOf(p[j])
      {
        assert p[i] == b.picked[i];
        if j < |b.picked| {
          assert p[j] == b.picked[j];
        }
      }
    }
  }

  /**
   * Every accepted outlier's key is cached at `now`, and no two accepted
   * outliers share a key: a second row with the same key in the same batch
   * is suppressed, because `now - now` is within the hour.
   */
  lemma {:induction false} PickedDistinct(outliers: seq<Outlier>, logged: map<Key, Moment>, now: Moment)
    ensures PickedOnce(LogScan(outliers, logged, now).0, now)
  {
    if outliers != [] {
      var init := outliers[..|outliers| - 1];
      var o := outliers[|outliers| - 1];
      PickedDistinct(init, logged, now);
      var b := LogScan(init, logged, now).0;
      if LogScan(init, logged, now).1 && o.time.Some? {
        AcceptPickedOnce(b, o, now);
      }
    }
  }

  /**
   * The first outlier of a batch is suppressed exactly when its key is
   * cached and `now` is at most one hour after the cached time, the hour
   * itself included.
   */
  lemma SuppressedIff(o: Outlier, logged: map<Key, Moment>, now: Moment)
    requires o.time.Some?
    ensures var b := LogScan([o], logged, now).0;
            && (b.picked == [] <==> KeyOf(o) in logged && Ticks(now) - Ticks(logged[KeyOf(o)]) <= OneHour)
            && (b.picked != [] ==> b.picked == [o] && b.logged == logged[KeyOf(o) := now])
            && (b.picked == [] ==> b.logged == logged)
  {
    assert [o][..0] == [];
  }

  /**
   * A journaled outlier whose event time lies more than an hour before
   * `now` is journaled again on every run: the rebuilt cache holds the event
   * time, not the time it was journaled.
   */
  lemma StaleOutlierRejournaled(o: Outlier, header: Row, now: Moment)
    requires o.time.Some? && o.time.value.micro == 0 && o.provider.Some?
    requires Ticks(now) - Ticks(o.time.value) > OneHour
    ensures var cache := LoadCache(Some([header, JournalRowOf(o)]), ParseStamp);
            && cache == Some(map[KeyOf(o) := o.time.value])
            && LogScan([o], cache.value, now).0.picked == [o]
  {
    var t := o.time.value;
    var row := JournalRowOf(o);
    FormatStampRoundTrip(t);
    assert t.(micro := 0) == t;
    assert [header, row][1..] == [row];
    CacheFromOne(row, t, ParseStamp);
    assert RowKey(row) == KeyOf(o);
    SuppressedIff(o, map[KeyOf(o) := t], now);
  }

  // ---------------------------------------------------------------------------
  // save_logged_anomalies (logger.py:65-85): newest first, ties in list order.

  /** Places `x` after the entries strictly newer than it, before the others. */
  function Insert(x: Entry, t: seq<Entry>): (r: seq<Entry>)
    ensures multiset(r) == multiset(t) + multiset{x}
  {
    if t == [] || !Earlier(x.stamp, t[0].stamp) then [x] + t
    else
      assert t == [t[0]] + t[1..];
      [t[0]] + Insert(x, t[1..])
  }

  /** `list.sort(key=..., reverse=True)`: Python's sort is stable also in reverse. */
  function SortDesc(s: seq<Entry>): (r: seq<Entry>)
    ensures multiset(r) == multiset(s)
  {
    if s == [] then []
    else
      assert s == [s[0]] + s[1..];
      Insert(s[0], SortDesc(s[1..]))
  }

  /** Newest first. */
  predicate Descending(r: seq<Entry>) {
    forall i, j :: 0 <= i < j < |r| ==> !Earlier(r[i].stamp, r[j].stamp)
  }

  /** Each element of an insertion is the inserted entry or one of the others. */
  lemma InsertFrom(x: Entry, t: seq<Entry>, e: Entry)
    requires e in Insert(x, t)
    ensures e == x || e in t
  {
    assert e in multiset(Insert(x, t));
  }

  lemma {:induction false} InsertDescending(x: Entry, t: seq<Entry>)
    requires Descending(t)
    ensures Descending(Insert(x, t))
  {
    if t != [] && Earlier(x.stamp, t[0].stamp) {
      var tail := Insert(x, t[1..]);
      InsertDescending(x, t[1..]);
      var r := [t[0]] + tail;
      forall i, j | 0 <= i < j < |r|
        ensures !Earlier(r[i].stamp, r[j].stamp)
      {
        if i == 0 {
          var e := tail[j - 1];
          InsertFrom(x, t[1..], e);
          if e != x {
            var k :| 0 <= k < |t[1..]| && t[1..][k] == e;
            assert t[k + 1] == e;
          }
        } else {
          assert r[i] == tail[i - 1] && r[j] == tail[j - 1];
        }
      }
    }
  }

  /** The sorted journal is newest first. */
  lemma {:induction false} SortDescending(s: seq<Entry>)
    ensures Descending(SortDesc(s))
  {
    if s != [] {
      SortDescending(s[1..]);
      InsertDescending(s[0], SortDesc(s[1..]));
    }
  }

  /** The entries stamped `k`, in order. */
  function WithStamp(s: seq<Entry>, k: Moment): seq<Entry> {
    if s == [] then []
    else (if s[0].stamp == k then [s[0]] else []) + WithStamp(s[1..], k)
  }

  lemma {:induction false} WithStampAppend(a: seq<Entry>, b: seq<Entry>, k: Moment)
    ensures WithStamp(a + b, k) == WithStamp(a, k) + WithStamp(b, k)
  {
    if a == [] {
      assert a + b == b;
    } else {
      assert (a + b)[0] == a[0] && (a + b)[1..] == a[1..] + b;
      WithStampAppend(a[1..], b, k);
    }
  }

  /** Insertion passes only entries strictly newer than `x`, so among equal stamps `x` stays first. */
  lemma {:induction false} InsertStable(x: Entry, t: seq<Entry>, k: Moment)
    ensures WithStamp(Insert(x, t), k) == (if x.stamp == k then [x] else []) + WithStamp(t, k)
  {
    if t == [] || !Earlier(x.stamp, t[0].stamp) {
      assert ([x] + t)[0] == x && ([x] + t)[1..] == t;
    } else {
      InsertStable(x, t[1..], k);
      var r := [t[0]] + Insert(x, t[1..]);
      assert r[0] == t[0] && r[1..] == Insert(x, t[1..]);
    }
  }

  /** Stability: entries with equal stamps keep their relative order. */
  lemma {:induction false} SortStable(s: seq<Entry>, k: Moment)
    ensures WithStamp(SortDesc(s), k) == WithStamp(s, k)
  {
    if s != [] {
      SortStable(s[1..], k);
      InsertStable(s[0], SortDesc(s[1..]), k);
    }
  }

  /** Insertion adds the inserted entry's row to the rows, and nothing else. */
  lemma {:induction false} InsertRows(x: Entry, t: seq<Entry>)
    ensures multiset(Rows(Insert(x, t))) == multiset(Rows(t)) + multiset{x.row}
  {
    if t == [] || !Earlier(x.stamp, t[0].stamp) {
      assert ([x] + t)[0] == x && ([x] + t)[1..] == t;
    } else {
      var r := [t[0]] + Insert(x, t[1..]);
      assert r[0] == t[0] && r[1..] == Insert(x, t[1..]);
      InsertRows(x, t[1..]);
    }
  }

  /** Sorting permutes the rows. */
  lemma {:induction false} SortRows(s: seq<Entry>)
    ensures multiset(Rows(SortDesc(s))) == multiset(Rows(s))
  {
    if s != [] {
      SortRows(s[1..]);
      InsertRows(s[0], SortDesc(s[1..]));
    }
  }

  /** logger.py:69-74: the rows after the existing header; None where an empty file raises StopIteration. */
  function ExistingLogs(journal: Option<seq<Row>>): (r: Option<seq<Row>>)
    ensures journal.None? ==> r == Some([])
    ensures journal.Some? && journal.value != [] ==> r == Some(journal.value[1..])
  {
    match journal
    case None => Some([])
    case Some(rows) => if rows == [] then None else Some(rows[1..])
  }

  /**
   * The journal `save_logged_anomalies` leaves: the header, then the new
   * rows and the existing ones sorted newest first; None where it raises
   * (an empty file, or a row whose time is missing or does not parse).
   */
  function Rewritten(journal: Option<seq<Row>>, newLogs: seq<Row>, parse: string -> Option<Moment>): (r: Option<seq<Row>>)
    ensures r.Some? ==> r.value != [] && r.value[0] == Headers
  {
    var existing :- ExistingLogs(journal);
    var es :- Entries(newLogs + existing, parse);
    Some([Headers] + Rows(SortDesc(es)))
  }

  /**
   * The rewritten journal holds exactly the new and the existing rows,
   * newest first, and among rows with the same time the new rows come first,
   * each side in its own order.
   */
  lemma RewriteKeepsEverything(journal: Option<seq<Row>>, newLogs: seq<Row>, k: Moment, parse: string -> Option<Moment>)
    requires Rewritten(journal, newLogs, parse).Some?
    ensures var existing := ExistingLogs(journal).value;
            var body := Rewritten(journal, newLogs, parse).value[1..];
            && Entries(newLogs, parse).Some? && Entries(existing, parse).Some?
            && var sorted := SortDesc(Entries(newLogs, parse).value + Entries(existing, parse).value);
               && body == Rows(sorted)
               && multiset(body) == multiset(newLogs) + multiset(existing)
               && Descending(sorted)
               && WithStamp(sorted, k) == WithStamp(Entries(newLogs, parse).value, k) + WithStamp(Entries(existing, parse).value, k)
  {
    var existing := ExistingLogs(journal).value;
    EntriesAppend(newLogs, existing, parse);
    var esNew, esOld := Entries(newLogs, parse).value, Entries(existing, parse).value;
    var es := esNew + esOld;
    var sorted := SortDesc(es);
    assert ([Headers] + Rows(sorted))[1..] == Rows(sorted);
    SortRows(es);
    EntriesRows(newLogs + existing, parse);
    SortDescending(es);
    SortStable(es, k);
    WithStampAppend(esNew, esOld, k);
  }

  /** Every entry read from rows carries its row's time. */
  lemma EntriesCarryStamps(rows: seq<Row>, parse: string -> Option<Moment>)
    requires Entries(rows, parse).Some?
    ensures forall e :: e in Entries(rows, parse).value ==> e.row != [] && parse(e.row[0]) == Some(e.stamp)
  {
    var es := Entries(rows, parse).value;
    EntriesIff(rows, parse);
    forall e | e in es
      ensures e.row != [] && parse(e.row[0]) == Some(e.stamp)
    {
      var k :| 0 <= k < |es| && es[k] == e;
      assert EntryOf(rows[k], parse).value == e;
    }
  }

  /** Sorting entries that carry their rows' times puts the rows newest first. */
  lemma SortedRowsNewestFirst(es: seq<Entry>, parse: string -> Option<Moment>)
    requires forall e :: e in es ==> e.row != [] && parse(e.row[0]) == Some(e.stamp)
    ensures forall i :: 0 <= i < |Rows(SortDesc(es))| ==> Timed(Rows(SortDesc(es))[i], parse)
    ensures NewestFirst(Rows(SortDesc(es)), parse)
  {
    var sorted := SortDesc(es);
    var body := Rows(sorted);
    SortDescending(es);
    RowsAt(sorted);
    forall i | 0 <= i < |body|
      ensures Timed(body[i], parse)
    {
      assert sorted[i] in multiset(es);
    }
    forall i, j | 0 <= i < j < |body| && Timed(body[i], parse) && Timed(body[j], parse)
      ensures !Earlier(parse(body[i][0]).value, parse(body[j][0]).value)
    {
      assert sorted[i] in multiset(es) && sorted[j] in multiset(es);
    }
  }

  /** Every row of the rewritten journal has a time, and the rows are newest first. */
  lemma RewrittenNewestFirst(journal: Option<seq<Row>>, newLogs: seq<Row>, parse: string -> Option<Moment>)
    requires Rewritten(journal, newLogs, parse).Some?
    ensures var r := Rewritten(journal, newLogs, parse).value;
            (forall i :: 1 <= i < |r| ==> Timed(r[i], parse)) && NewestFirst(r[1..], parse)
  {
    var rows := newLogs + ExistingLogs(journal).value;
    var sorted := SortDesc(Entries(rows, parse).value);
    assert ([Headers] + Rows(sorted))[1..] == Rows(sorted);
    EntriesCarryStamps(rows, parse);
    SortedRowsNewestFirst(Entries(rows, parse).value, parse);
    var r := Rewritten(journal, newLogs, parse).value;
    assert forall i :: 1 <= i < |r| ==> r[i] == r[1..][i - 1];
  }

  // ---------------------------------------------------------------------------
  // archive_old_anomalies (logger.py:87-119): the seven-day split.

  /** A row whose first field `parse` reads as a time. */
  predicate Timed(row: Row, parse: string -> Option<Moment>) {
    row != [] && parse(row[0]).Some?
  }

  /** logger.py:100-101: a row whose time is strictly before the cutoff. */
  predicate IsOld(row: Row, cutoff: Moment, parse: string -> Option<Moment>) {
    Timed(row, parse) && Earlier(parse(row[0]).value, cutoff)
  }

  /** `anomalies_to_archive`: the old rows, in journal order. */
  function OldRows(body: seq<Row>, cutoff: Moment, parse: string -> Option<Moment>): seq<Row> {
    if body == [] then []
    else
      var row := body[|body| - 1];
      OldRows(body[..|body| - 1], cutoff, parse) + (if IsOld(row, cutoff, parse) then [row] else [])
  }

  /** `anomalies_to_keep`: the other rows, in journal order. */
  function KeptRows(body: seq<Row>, cutoff: Moment, parse: string -> Option<Moment>): seq<Row> {
    if body == [] then []
    else
      var row := body[|body| - 1];
      KeptRows(body[..|body| - 1], cutoff, parse) + (if IsOld(row, cutoff, parse) then [] else [row])
  }

  /** The split loses and duplicates nothing. */
  lemma {:induction false} PartitionCounts(body: seq<Row>, cutoff: Moment, parse: string -> Option<Moment>)
    ensures multiset(OldRows(body, cutoff, parse)) + multiset(KeptRows(body, cutoff, parse)) == multiset(body)
  {
    if body != [] {
      var init := body[..|body| - 1];
      var last := body[|body| - 1];
      PartitionCounts(init, cutoff, parse);
      LastSplit(body);
      var old_, kept := OldRows(init, cutoff, parse), KeptRows(init, cutoff, parse);
      if IsOld(last, cutoff, parse) {
        assert OldRows(body, cutoff, parse) == old_ + [last] && KeptRows(body, cutoff, parse) == kept + [];
        assert kept + [] == kept;
      } else {
        assert OldRows(body, cutoff, parse) == old_ + [] && KeptRows(body, cutoff, parse) == kept + [last];
        assert old_ + [] == old_;
      }
    }
  }

  /** Exactly the old rows are archived. */
  lemma {:induction false} ArchivedExactlyOld(body: seq<Row>, cutoff: Moment, parse: string -> Option<Moment>)
    ensures forall row :: row in OldRows(body, cutoff, parse) <==> row in body && IsOld(row, cutoff, parse)
  {
    if body != [] {
      ArchivedExactlyOld(body[..|body| - 1], cutoff, parse);
      LastSplit(body);
    }
  }

  /** Exactly the other rows are kept. */
  lemma {:induction false} KeptExactlyRecent(body: seq<Row>, cutoff: Moment, parse: string -> Option<Moment>)
    ensures forall row :: row in KeptRows(body, cutoff, parse) <==> row in body && !IsOld(row, cutoff, parse)
  {
    if body != [] {
      KeptExactlyRecent(body[..|body| - 1], cutoff, parse);
      LastSplit(body);
    }
  }

  /** Splitting a concatenation splits each part: both lists keep the journal's order. */
  lemma {:induction false} SplitAppend(a: seq<Row>, b: seq<Row>, cutoff: Moment, parse: string -> Option<Moment>)
    ensures OldRows(a + b, cutoff, parse) == OldRows(a, cutoff, parse) + OldRows(b, cutoff, parse)
    ensures KeptRows(a + b, cutoff, parse) == KeptRows(a, cutoff, parse) + KeptRows(b, cutoff, parse)
    decreases |b|
  {
    if b == [] {
      assert a + b == a;
      assert OldRows(a, cutoff, parse) + [] == OldRows(a, cutoff, parse);
      assert KeptRows(a, cutoff, parse) + [] == KeptRows(a, cutoff, parse);
    } else {
      var init, last := b[..|b| - 1], b[|b| - 1];
      assert (a + b)[..|a + b| - 1] == a + init && (a + b)[|a + b| - 1] == last;
      SplitAppend(a, init, cutoff, parse);
    }
  }

  /** A single row goes to the archive or stays, by its own time. */
  lemma SplitOne(row: Row, cutoff: Moment, parse: string -> Option<Moment>)
    ensures OldRows([row], cutoff, parse) == if IsOld(row, cutoff, parse) then [row] else []
    ensures KeptRows([row], cutoff, parse) == if IsOld(row, cutoff, parse) then [] else [row]
  {
    assert [row][..0] == [];
  }

  /** No timed row is earlier than a timed row after it. */
  predicate NewestFirst(rows: seq<Row>, parse: string -> Option<Moment>) {
    forall i, j :: 0 <= i < j < |rows| && Timed(rows[i], parse) && Timed(rows[j], parse) ==>
      !Earlier(parse(rows[i][0]).value, parse(rows[j][0]).value)
  }

  /** A journal written newest first stays newest first in both halves of the split. */
  lemma {:induction false} SplitKeepsNewestFirst(body: seq<Row>, cutoff: Moment, parse: string -> Option<Moment>)
    requires NewestFirst(body, parse)
    ensures NewestFirst(OldRows(body, cutoff, parse), parse) && NewestFirst(KeptRows(body, cutoff, parse), parse)
  {
    if body != [] {
      var init, last := body[..|body| - 1], body[|body| - 1];
      assert forall k :: 0 <= k < |init| ==> init[k] == body[k];
      SplitKeepsNewestFirst(init, cutoff, parse);
      ArchivedExactlyOld(init, cutoff, parse);
      KeptExactlyRecent(init, cutoff, parse);
      NewestFirstSnoc(OldRows(init, cutoff, parse), init, last, parse, body);
      NewestFirstSnoc(KeptRows(init, cutoff, parse), init, last, parse, body);
    }
  }

  /** Appending the journal's last row to rows drawn from before it keeps the order. */
  lemma NewestFirstSnoc(s: seq<Row>, init: seq<Row>, last: Row, parse: string -> Option<Moment>, body: seq<Row>)
    requires body == init + [last] && NewestFirst(body, parse) && NewestFirst(s, parse)
    requires forall row :: row in s ==> row in init
    ensures NewestFirst(s + [last], parse)
  {
    var t := s + [last];
    forall i, j | 0 <= i < j < |t| && Timed(t[i], parse) && Timed(t[j], parse)
      ensures !Earlier(parse(t[i][0]).value, parse(t[j][0]).value)
    {
      if j == |s| {
        assert t[i] == s[i] && t[i] in init;
        var k :| 0 <= k < |init| && init[k] == t[i];
        assert body[k] == t[i] && body[|init|] == last;
      } else {
        assert t[i] == s[i] && t[j] == s[j];
      }
    }
  }

  /**
   * logger.py:92: with the cutoff `now - timedelta(days=7)`, a row is old
   * exactly when its time lies more than seven days before `now`; a row
   * stamped at the cutoff itself stays.
   */
  lemma ArchiveBoundary(row: Row, now: Moment, cutoff: Moment, parse: string -> Option<Moment>)
    requires Timed(row, parse) && Ticks(cutoff) == Ticks(now) - SevenDays
    ensures IsOld(row, cutoff, parse) <==> Ticks(parse(row[0]).value) < Ticks(now) - SevenDays
    ensures parse(row[0]) == Some(cutoff) ==> !IsOld(row, cutoff, parse)
  {
    TicksFollowCalendar(parse(row[0]).value, cutoff);
  }
}

/**
 * The `sigma_alerts` table as the ingestion engine uses it: the cluster
 * (`dbscan_cluster`) chosen for each new detection (SQL1.py:181-218,
 * 283-290), the rows one insert adds (SQL1.py:221-240), and the seven-day
 * retention delete (SQL1.py:243-257). The table is an ordered sequence of
 * rows; the auto-increment id is not kept.
 */
module Store {
  import opened Wrappers
  import opened Stamps
  import opened Ingest

  /** A row of `sigma_alerts` (SQL1.py:36-47); `cluster` is `dbscan_cluster`. */
  datatype Alert = Alert(title: Option<string>, tags: Option<string>, description: Option<string>,
                         time: Option<Moment>, computer: Option<string>, user: Option<string>,
                         eventId: Option<string>, provider: Option<string>, cluster: Option<int>)

  /** SQL `a = b`: true only when both are non-null and equal. */
  predicate SqlEq(a: Option<string>, b: Option<string>) {
    a.Some? && b.Some? && a.value == b.value
  }

  /** The WHERE clause of SQL1.py:187-188: title, tags, computer, user and event id all equal. */
  predicate Matches(row: Alert, r: Record) {
    && SqlEq(row.title, r.title) && SqlEq(row.tags, r.tags) && SqlEq(row.computer, r.computer)
    && SqlEq(row.user, r.user) && SqlEq(row.eventId, r.eventId)
  }

  /** Two rows share a signature under the same clause. */
  predicate SameSignature(a: Alert, b: Alert) {
    && SqlEq(a.title, b.title) && SqlEq(a.tags, b.tags) && SqlEq(a.computer, b.computer)
    && SqlEq(a.user, b.user) && SqlEq(a.eventId, b.eventId)
  }

  /**
   * `get_existing_cluster_value` (SQL1.py:181-202): the cluster of the first
   * matching row (`LIMIT 1` without an order; rows are taken in table order),
   * which is null when that row's cluster is; None when no row matches.
   */
  function ExistingCluster(rows: seq<Alert>, r: Record): (l: Option<int>)
    ensures l.Some? ==> exists i :: 0 <= i < |rows| && Matches(rows[i], r) && rows[i].cluster == l
    ensures (forall i :: 0 <= i < |rows| ==> !Matches(rows[i], r)) ==> l.None?
    ensures (exists i :: 0 <= i < |rows| && Matches(rows[i], r)) ==>
              exists i :: 0 <= i < |rows| && Matches(rows[i], r) && rows[i].cluster == l
  {
    if rows == [] then None
    else if Matches(rows[0], r) then rows[0].cluster
    else
      var l := ExistingCluster(rows[1..], r);
      assert l.Some? ==> exists i :: 0 < i < |rows| && Matches(rows[i], r) && rows[i].cluster == l by {
        if l.Some? {
          var i :| 0 <= i < |rows[1..]| && Matches(rows[1..][i], r) && rows[1..][i].cluster == l;
          assert rows[i + 1] == rows[1..][i];
        }
      }
      assert (exists i :: 0 < i < |rows| && Matches(rows[i], r)) ==>
               exists i :: 0 < i < |rows| && Matches(rows[i], r) && rows[i].cluster == l by {
        if exists i :: 0 < i < |rows| && Matches(rows[i], r) {
          var i :| 0 < i < |rows| && Matches(rows[i], r);
          assert rows[1..][i - 1] == rows[i];
          var j :| 0 <= j < |rows[1..]| && Matches(rows[1..][j], r) && rows[1..][j].cluster == l;
          assert rows[j + 1] == rows[1..][j];
        }
      }
      l
  }

  /**
   * With rows in table order, `LIMIT 1` returns the first matching row: its
   * cluster is the one reused, whatever later matching rows hold.
   */
  lemma {:induction false} FirstMatch(rows: seq<Alert>, r: Record, i: nat)
    requires i < |rows| && Matches(rows[i], r)
    requires forall j :: 0 <= j < i ==> !Matches(rows[j], r)
    ensures ExistingCluster(rows, r) == rows[i].cluster
  {
    if i > 0 {
      assert !Matches(rows[0], r);
      assert rows[1..][i - 1] == rows[i];
      forall j | 0 <= j < i - 1
        ensures !Matches(rows[1..][j], r)
      {
        assert rows[1..][j] == rows[j + 1];
      }
      FirstMatch(rows[1..], r, i - 1);
    }
  }

  /** `SELECT MAX(dbscan_cluster)`: None when the table is empty or every cluster is null. */
  function MaxStored(rows: seq<Alert>): (m: Option<int>)
    ensures m.None? <==> forall i :: 0 <= i < |rows| ==> rows[i].cluster.None?
    ensures m.Some? ==> forall i :: 0 <= i < |rows| && rows[i].cluster.Some? ==> rows[i].cluster.value <= m.value
    ensures m.Some? ==> exists i :: 0 <= i < |rows| && rows[i].cluster == m
  {
    if rows == [] then None
    else
      var rest := MaxStored(rows[1..]);
      assert forall i :: 1 <= i < |rows| ==> rows[i] == rows[1..][i - 1];
      match rows[0].cluster
      case None => rest
      case Some(l) =>
        if rest.None? || rest.value <= l then Some(l) else rest
  }

  /** `get_max_cluster_value` (SQL1.py:205-218): the maximum, 0 when there is none. */
  function MaxCluster(rows: seq<Alert>): int {
    MaxStored(rows).GetOr(0)
  }

  /** The cluster SQL1.py:284-289 gives a detection: the existing one, or the maximum plus one. */
  function AssignCluster(rows: seq<Alert>, r: Record): int {
    match ExistingCluster(rows, r)
    case Some(l) => l
    case None => MaxCluster(rows) + 1
  }

  /** The row `insert_data_to_sql` writes for one record (SQL1.py:232). */
  function RowOf(r: Record, cluster: int): Alert {
    Alert(r.title, r.tags, r.description, Some(r.time), r.computer, r.user, r.eventId, r.provider, Some(cluster))
  }

  /** The rows of one `insert_data_to_sql(data, _, cluster)` call, in order. */
  function Clustered(data: seq<Record>, cluster: int): (rows: seq<Alert>)
    ensures |rows| == |data|
    ensures forall i :: 0 <= i < |data| ==> rows[i] == RowOf(data[i], cluster)
  {
    if data == [] then [] else [RowOf(data[0], cluster)] + Clustered(data[1..], cluster)
  }

  /** The rows left after ingesting `data` one record at a time, as SQL1.py:283-290 does. */
  function IngestAll(rows: seq<Alert>, data: seq<Record>): seq<Alert>
    decreases |data|
  {
    if data == [] then rows
    else IngestAll(rows + [RowOf(data[0], AssignCluster(rows, data[0]))], data[1..])
  }

  /**
   * The cutoff of `truncate_old_data`, in ticks: now less seven days, with the
   * microseconds dropped when `strftime` formats it (SQL1.py:248-250).
   */
  function Cutoff(now: Moment): (c: int)
    ensures c == Ticks(now.(micro := 0)) - SevenDays
    ensures c <= Ticks(now) - SevenDays < c + MicrosPerSecond
  {
    Ticks(now) - now.micro - SevenDays
  }

  /** `system_time < cutoff` is false for a null time, so such rows stay. */
  predicate Kept(row: Alert, cutoff: int) {
    row.time.None? || Ticks(row.time.value) >= cutoff
  }

  /** The rows the DELETE of SQL1.py:249 leaves, in their order. */
  function Retain(rows: seq<Alert>, cutoff: int): (kept: seq<Alert>)
    ensures |kept| <= |rows|
    ensures forall a :: a in kept <==> a in rows && Kept(a, cutoff)
  {
    if rows == [] then []
    else (if Kept(rows[0], cutoff) then [rows[0]] else []) + Retain(rows[1..], cutoff)
  }

  /** The table. */
  class AlertStore {
    var rows: seq<Alert>

    constructor (rows: seq<Alert>)
      ensures this.rows == rows
    {
      this.rows := rows;
    }

    /**
     * `insert_data_to_sql(data, 'sigma_alerts', cluster)` (SQL1.py:221-240):
     * every record is added with the same cluster; an empty batch adds nothing.
     */
    method InsertData(data: seq<Record>, cluster: int)
      modifies this
      ensures rows == old(rows) + Clustered(data, cluster)
    {
      if data != [] {
        rows := rows + Clustered(data, cluster);
      }
    }

    /** SQL1.py:283-290: each record gets its cluster from the table as it stands, then is inserted alone. */
    method Ingest(data: seq<Record>)
      modifies this
      ensures rows == IngestAll(old(rows), data)
    {
      for k := 0 to |data|
        invariant IngestAll(old(rows), data) == IngestAll(rows, data[k..])
      {
        assert data[k..][1..] == data[k + 1..];
        var before := rows;
        var cluster: int;
        var existing := ExistingCluster(rows, data[k]);
        if existing.Some? {
          cluster := existing.value;
        } else {
          var maxCluster := MaxCluster(rows);
          cluster := maxCluster + 1;
        }
        InsertData([data[k]], cluster);
        assert rows == before + [RowOf(data[k], AssignCluster(before, data[k]))];
      }
      assert data[|data|..] == [];
    }

    /** `truncate_old_data` (SQL1.py:243-257). */
    method Truncate(now: Moment)
      modifies this
      ensures rows == Retain(old(rows), Cutoff(now))
    {
      rows := Retain(rows, Cutoff(now));
    }
  }

  // ---------------------------------------------------------------------------
  // Properties of the cluster choice.

  /** A stored match with a cluster hands that cluster on; without one the cluster is new. */
  lemma ClusterReused(rows: seq<Alert>, r: Record)
    ensures ExistingCluster(rows, r).Some? ==> AssignCluster(rows, r) == ExistingCluster(rows, r).value
    ensures ExistingCluster(rows, r).None? ==>
              forall i :: 0 <= i < |rows| && rows[i].cluster.Some? ==> rows[i].cluster.value < AssignCluster(rows, r)
    ensures MaxStored(rows).None? && ExistingCluster(rows, r).None? ==> AssignCluster(rows, r) == 1
  {
  }

  /** Description, provider and time do not take part in the choice. */
  lemma ClusterIgnoresOtherFields(rows: seq<Alert>, r: Record, description: Option<string>,
                                 provider: Option<string>, time: Moment)
    ensures AssignCluster(rows, r) == AssignCluster(rows, r.(description := description, provider := provider, time := time))
  {
    var r' := r.(description := description, provider := provider, time := time);
    assert forall a :: Matches(a, r) == Matches(a, r');
    ExistingClusterDependsOnMatches(rows, r, r');
  }

  lemma {:induction false} ExistingClusterDependsOnMatches(rows: seq<Alert>, r: Record, r': Record)
    requires forall a :: Matches(a, r) == Matches(a, r')
    ensures ExistingCluster(rows, r) == ExistingCluster(rows, r')
  {
    if rows != [] {
      ExistingClusterDependsOnMatches(rows[1..], r, r');
    }
  }

  /** A record with a null signature field never matches (SQL's `NULL = NULL` is not true), so it always gets a new cluster. */
  lemma NullSignatureGetsNewCluster(rows: seq<Alert>, r: Record)
    requires r.title.None? || r.tags.None? || r.computer.None? || r.user.None? || r.eventId.None?
    ensures AssignCluster(rows, r) == MaxCluster(rows) + 1
  {
  }

  /** With every row labelled, a matching row means a cluster is found. */
  lemma {:induction false} MatchFound(rows: seq<Alert>, r: Record, i: nat)
    requires AllClustered(rows) && i < |rows| && Matches(rows[i], r)
    ensures ExistingCluster(rows, r).Some?
  {
    if !Matches(rows[0], r) {
      MatchFound(rows[1..], r, i - 1);
    }
  }

  /** Every row carries a cluster. */
  predicate AllClustered(rows: seq<Alert>) {
    forall i :: 0 <= i < |rows| ==> rows[i].cluster.Some?
  }

  /** Rows that share a signature share a cluster. */
  predicate Consistent(rows: seq<Alert>) {
    forall i, j :: 0 <= i < |rows| && 0 <= j < |rows| && SameSignature(rows[i], rows[j]) ==> rows[i].cluster == rows[j].cluster
  }

  /**
   * Signature stability: if the table only ever grew by sequential ingestion
   * (all rows clustered, equal signatures with equal clusters), it stays so.
   */
  lemma {:induction false} IngestKeepsClustersConsistent(rows: seq<Alert>, data: seq<Record>)
    requires AllClustered(rows) && Consistent(rows)
    ensures AllClustered(IngestAll(rows, data)) && Consistent(IngestAll(rows, data))
    decreases |data|
  {
    if data != [] {
      var row := RowOf(data[0], AssignCluster(rows, data[0]));
      IngestOneKeepsClustersConsistent(rows, data[0]);
      IngestKeepsClustersConsistent(rows + [row], data[1..]);
    }
  }

  lemma IngestOneKeepsClustersConsistent(rows: seq<Alert>, r: Record)
    requires AllClustered(rows) && Consistent(rows)
    ensures var rows' := rows + [RowOf(r, AssignCluster(rows, r))];
            AllClustered(rows') && Consistent(rows')
  {
    var row := RowOf(r, AssignCluster(rows, r));
    var rows' := rows + [row];
    forall i | 0 <= i < |rows| && SameSignature(rows[i], row)
      ensures rows[i].cluster == row.cluster
    {
      assert Matches(rows[i], r);
      MatchFound(rows, r, i);
      var l := ExistingCluster(rows, r);
      var j :| 0 <= j < |rows| && Matches(rows[j], r) && rows[j].cluster == l;
      assert SameSignature(rows[i], rows[j]);
    }
    forall i, j | 0 <= i < |rows'| && 0 <= j < |rows'| && SameSignature(rows'[i], rows'[j])
      ensures rows'[i].cluster == rows'[j].cluster
    {
      if i < |rows| && j == |rows| {
        assert rows'[i] == rows[i];
      } else if i == |rows| && j < |rows| {
        assert rows'[j] == rows[j];
        assert SameSignature(rows[j], row);
      }
    }
  }

  /** A row that carries every field of the record, and some cluster. */
  predicate RowFor(a: Alert, r: Record) {
    && a.title == r.title && a.tags == r.tags && a.description == r.description && a.time == Some(r.time)
    && a.computer == r.computer && a.user == r.user && a.eventId == r.eventId && a.provider == r.provider
    && a.cluster.Some?
  }

  /** Ingestion keeps what was there and adds one clustered row per record, in order. */
  lemma {:induction false} IngestAppends(rows: seq<Alert>, data: seq<Record>)
    ensures |IngestAll(rows, data)| == |rows| + |data|
    ensures IngestAll(rows, data)[..|rows|] == rows
    ensures forall k :: 0 <= k < |data| ==> RowFor(IngestAll(rows, data)[|rows| + k], data[k])
    decreases |data|
  {
    if data != [] {
      var rows' := rows + [RowOf(data[0], AssignCluster(rows, data[0]))];
      var all := IngestAll(rows', data[1..]);
      IngestAppends(rows', data[1..]);
      assert IngestAll(rows, data) == all;
      assert all[..|rows|] == rows'[..|rows|];
      forall k | 0 <= k < |data|
        ensures RowFor(all[|rows| + k], data[k])
      {
        if k == 0 {
          assert all[|rows|] == all[..|rows'|][|rows|] == rows'[|rows|];
        } else {
          assert data[k] == data[1..][k - 1];
          assert all[|rows| + k] == all[|rows'| + (k - 1)];
        }
      }
    }
  }

  // ---------------------------------------------------------------------------
  // Properties of the retention delete.

  /** The delete is a filter: it acts on each part of the table separately, keeping order. */
  lemma {:induction false} RetainAppend(a: seq<Alert>, b: seq<Alert>, cutoff: int)
    ensures Retain(a + b, cutoff) == Retain(a, cutoff) + Retain(b, cutoff)
  {
    if a != [] {
      assert (a + b)[1..] == a[1..] + b;
      RetainAppend(a[1..], b, cutoff);
    } else {
      assert a + b == b;
    }
  }

  /** A single row is kept exactly when it is not too old. */
  lemma RetainOne(row: Alert, cutoff: int)
    ensures Retain([row], cutoff) == if Kept(row, cutoff) then [row] else []
  {
    assert [row][1..] == [];
  }

  /**
   * Retention by the calendar: with `c` the truncated cutoff moment, a row
   * survives exactly when its time is null or not earlier than `c`; a row at
   * `c` itself survives.
   */
  lemma RetentionBoundary(row: Alert, now: Moment, c: Moment)
    requires Ticks(c) == Cutoff(now)
    ensures row.time.None? ==> Kept(row, Cutoff(now))
    ensures row.time.Some? ==> (Kept(row, Cutoff(now)) <==> !Earlier(row.time.value, c))
    ensures row.time == Some(c) ==> Kept(row, Cutoff(now))
  {
    if row.time.Some? {
      TicksFollowCalendar(row.time.value, c);
    }
  }
}

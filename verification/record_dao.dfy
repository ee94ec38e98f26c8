/**
 * `ClockInRecordDao` (data/database/ClockInRecordDao.kt): each query as a pure function over
 * the `clock_in_records` table. Comparisons on `timestamp` are made on the stored
 * milliseconds, as SQLite sees them.
 */
module RecordDao {
  import opened Common
  import opened Entities
  import Keys
  import DbConverters

  predicate IsRecordRow(k: string, rec: Record)
  {
    rec.recordId == k && IsStoredRecord(rec)
  }

  /** `recordId` is the primary key. */
  type RecordTable = t: map<string, Record> | forall k :: k in t ==> IsRecordRow(k, t[k])
    witness map[]

  /** The `WHERE userId = :userId AND itemId = :itemId` filter; tombstones pass. */
  predicate Matches(rec: Record, userId: string, itemId: string)
  {
    rec.userId == userId && rec.itemId == itemId
  }

  /** The stored value of the `timestamp` column. */
  function TimeKey(rec: Record): int
  {
    DbConverters.Millis(rec.timestamp)
  }

  /** `ORDER BY timestamp DESC`. */
  predicate NewestFirst(rows: seq<Record>)
  {
    forall i, j :: 0 <= i < j < |rows| ==> TimeKey(rows[j]) <= TimeKey(rows[i])
  }

  /** Inserts `x` before the first row that is not newer than it. */
  function InsertByTime(x: Record, rows: seq<Record>): (r: seq<Record>)
    requires NewestFirst(rows)
    ensures NewestFirst(r)
    ensures multiset(r) == multiset(rows) + multiset{x}
    ensures |r| > 0 && (r[0] == x || (|rows| > 0 && r[0] == rows[0]))
  {
    if rows == [] || TimeKey(rows[0]) <= TimeKey(x) then [x] + rows
    else
      assert rows == [rows[0]] + rows[1..];
      var tail := InsertByTime(x, rows[1..]);
      assert tail[0] == x || TimeKey(tail[0]) <= TimeKey(rows[0]);
      NewestFirstCons(rows[0], tail);
      [rows[0]] + tail
  }

  /** A row no older than the head of a newest-first list can go in front of it. */
  lemma NewestFirstCons(h: Record, rows: seq<Record>)
    requires NewestFirst(rows)
    requires rows != [] ==> TimeKey(rows[0]) <= TimeKey(h)
    ensures NewestFirst([h] + rows)
  {
    var r := [h] + rows;
    forall i, j | 0 <= i < j < |r|
      ensures TimeKey(r[j]) <= TimeKey(r[i])
    {
      if i == 0 {
        assert TimeKey(rows[j - 1]) <= TimeKey(rows[0]);
      }
    }
  }

  /** The first row and the rest have distinct ids, and the rest are pairwise distinct. */
  lemma DistinctTail(rows: seq<Record>)
    requires DistinctIds(rows) && rows != []
    ensures DistinctIds(rows[1..])
    ensures forall i :: 0 <= i < |rows[1..]| ==> rows[1..][i].recordId != rows[0].recordId
  {
    var rest := rows[1..];
    forall i, j | 0 <= i < |rest| && 0 <= j < |rest| && i != j
      ensures rest[i].recordId != rest[j].recordId
    {
      assert rest[i] == rows[i + 1] && rest[j] == rows[j + 1];
    }
    forall i | 0 <= i < |rest|
      ensures rest[i].recordId != rows[0].recordId
    {
      assert rest[i] == rows[i + 1];
    }
  }

  /** Putting a row with a new id in front keeps the ids distinct. */
  lemma DistinctCons(x: Record, rows: seq<Record>)
    requires DistinctIds(rows)
    requires forall y :: y in rows ==> y.recordId != x.recordId
    ensures DistinctIds([x] + rows)
  {
    var r := [x] + rows;
    forall i, j | 0 <= i < |r| && 0 <= j < |r| && i != j
      ensures r[i].recordId != r[j].recordId
    {
      if i > 0 && j > 0 {
        assert r[i] == rows[i - 1] && r[j] == rows[j - 1];
      } else if i > 0 {
        assert r[i] in rows;
      } else {
        assert r[j] in rows;
      }
    }
  }

  /** Inserting a row whose id is not yet listed keeps the ids distinct. */
  lemma {:induction false} InsertByTimeKeepsIdsDistinct(x: Record, rows: seq<Record>)
    requires NewestFirst(rows) && DistinctIds(rows)
    requires forall y :: y in rows ==> y.recordId != x.recordId
    ensures DistinctIds(InsertByTime(x, rows))
  {
    if rows == [] || TimeKey(rows[0]) <= TimeKey(x) {
      DistinctCons(x, rows);
    } else {
      var rest := rows[1..];
      DistinctTail(rows);
      assert forall y :: y in rest ==> y in rows;
      InsertByTimeKeepsIdsDistinct(x, rest);
      var tail := InsertByTime(x, rest);
      forall y | y in tail
        ensures y.recordId != rows[0].recordId
      {
        assert y in multiset(tail);
        if y != x {
          assert y in multiset(rest);
          var j :| 0 <= j < |rest| && rest[j] == y;
        }
      }
      DistinctCons(rows[0], tail);
      assert InsertByTime(x, rows) == [rows[0]] + tail;
    }
  }

  /** The head of a newest-first listing is at least as new as every member. */
  lemma HeadIsNewest(rows: seq<Record>)
    requires NewestFirst(rows) && |rows| > 0
    ensures forall x :: x in rows ==> TimeKey(x) <= TimeKey(rows[0])
  {
    forall x | x in rows
      ensures TimeKey(x) <= TimeKey(rows[0])
    {
      var j :| 0 <= j < |rows| && rows[j] == x;
    }
  }

  /** A stable insertion sort, newest first. */
  function SortNewestFirst(rows: seq<Record>): (r: seq<Record>)
    ensures NewestFirst(r)
    ensures multiset(r) == multiset(rows)
  {
    if rows == [] then []
    else
      assert rows == [rows[0]] + rows[1..];
      InsertByTime(rows[0], SortNewestFirst(rows[1..]))
  }

  /** Sorting a listing with distinct ids keeps them distinct. */
  lemma {:induction false} SortKeepsIdsDistinct(rows: seq<Record>)
    requires DistinctIds(rows)
    ensures DistinctIds(SortNewestFirst(rows))
  {
    if rows != [] {
      var rest := rows[1..];
      DistinctTail(rows);
      SortKeepsIdsDistinct(rest);
      var tail := SortNewestFirst(rest);
      forall y | y in tail
        ensures y.recordId != rows[0].recordId
      {
        assert y in multiset(tail);
        var j :| 0 <= j < |rest| && rest[j] == y;
      }
      InsertByTimeKeepsIdsDistinct(rows[0], tail);
    }
  }

  /** Rows listed in ascending `recordId` order. */
  predicate IdsAscending(rows: seq<Record>)
  {
    forall i, j :: 0 <= i < j < |rows| ==> Keys.Less(rows[i].recordId, rows[j].recordId)
  }

  /** Ids pairwise distinct. */
  predicate DistinctIds(rows: seq<Record>)
  {
    forall i, j :: 0 <= i < |rows| && 0 <= j < |rows| && i != j ==> rows[i].recordId != rows[j].recordId
  }

  /** A listing in ascending id order names each id once. */
  lemma AscendingIdsAreDistinct(rows: seq<Record>)
    requires IdsAscending(rows)
    ensures DistinctIds(rows)
  {
    forall i, j | 0 <= i < |rows| && 0 <= j < |rows| && i != j
      ensures rows[i].recordId != rows[j].recordId
    {
      if i < j {
        Keys.LessIrreflexive(rows[i].recordId);
      } else {
        Keys.LessIrreflexive(rows[j].recordId);
      }
    }
  }

  /** Rows each of which is the table's row for its own id. */
  predicate RowsOf(t: RecordTable, rows: seq<Record>)
  {
    forall i :: 0 <= i < |rows| ==> rows[i].recordId in t && t[rows[i].recordId] == rows[i]
  }

  /** Reordering a listing keeps its length, its members and their provenance. */
  lemma PermutationKeepsRows(t: RecordTable, rows: seq<Record>, sorted: seq<Record>)
    requires RowsOf(t, rows) && multiset(sorted) == multiset(rows)
    ensures RowsOf(t, sorted) && |sorted| == |rows|
    ensures forall x :: x in rows <==> x in sorted
  {
    assert |sorted| == |multiset(sorted)| == |multiset(rows)| == |rows|;
    forall x
      ensures x in rows <==> x in sorted
    {
      assert x in rows <==> x in multiset(rows);
      assert x in sorted <==> x in multiset(sorted);
    }
    forall i | 0 <= i < |sorted|
      ensures sorted[i].recordId in t && t[sorted[i].recordId] == sorted[i]
    {
      assert sorted[i] in rows;
      var j :| 0 <= j < |rows| && rows[j] == sorted[i];
    }
  }

  /** A `SELECT` over the table in key order. */
  function SelectRecords(t: RecordTable, keep: Record -> bool): (rows: seq<Record>)
    ensures RowsOf(t, rows) && IdsAscending(rows)
    ensures forall i :: 0 <= i < |rows| ==> keep(rows[i])
    ensures forall k :: k in t && keep(t[k]) ==> t[k] in rows
  {
    var ks := Keys.SelectKeys(t, keep);
    var rows := Keys.Select(t, keep);
    assert forall i :: 0 <= i < |rows| ==> rows[i].recordId == ks[i];
    assert forall k :: k in t && keep(t[k]) ==> k in ks;
    rows
  }

  /** `@Insert(onConflict = REPLACE)`. */
  function InsertOrUpdate(t: RecordTable, rec: Record): (r: RecordTable)
    ensures r.Keys == t.Keys + {rec.recordId}
    ensures r[rec.recordId] == StoreRecord(rec)
    ensures forall k :: k in t && k != rec.recordId ==> r[k] == t[k]
  {
    t[rec.recordId := StoreRecord(rec)]
  }

  /** `@Delete`: removes the row with the record's primary key. */
  function DeleteRecord(t: RecordTable, rec: Record): (r: RecordTable)
    ensures r.Keys == t.Keys - {rec.recordId}
    ensures forall k :: k in r ==> r[k] == t[k]
  {
    t - {rec.recordId}
  }

  /** `WHERE recordId = :recordId LIMIT 1`. */
  function GetRecordById(t: RecordTable, recordId: string): (r: Option<Record>)
    ensures r.Some? <==> recordId in t
    ensures r.Some? ==> r.value == t[recordId] && r.value.recordId == recordId
  {
    if recordId in t then Some(t[recordId]) else None
  }

  /** `DELETE ... WHERE itemId = :itemId AND userId = :userId`: a physical delete, tombstones too. */
  function DeleteRecordsByItem(t: RecordTable, userId: string, itemId: string): (r: RecordTable)
    ensures forall k :: k in r <==> k in t && !Matches(t[k], userId, itemId)
    ensures forall k :: k in r ==> r[k] == t[k]
  {
    map k | k in t && !Matches(t[k], userId, itemId) :: t[k]
  }

  /** `WHERE itemId AND userId ORDER BY timestamp DESC`: every matching row, tombstones included. */
  function GetRecordsByItem(t: RecordTable, userId: string, itemId: string): (r: seq<Record>)
    ensures NewestFirst(r) && RowsOf(t, r)
    ensures forall i :: 0 <= i < |r| ==> Matches(r[i], userId, itemId)
    ensures forall k :: k in t && Matches(t[k], userId, itemId) ==> t[k] in r
    ensures DistinctIds(r)
  {
    var rows := SelectRecords(t, (rec: Record) => Matches(rec, userId, itemId));
    SortedSelectionByItem(t, userId, itemId, rows);
    SortNewestFirst(rows)
  }

  /** Sorting the selected rows keeps them the item's rows, each once. */
  lemma SortedSelectionByItem(t: RecordTable, userId: string, itemId: string, rows: seq<Record>)
    requires RowsOf(t, rows) && IdsAscending(rows)
    requires forall i :: 0 <= i < |rows| ==> Matches(rows[i], userId, itemId)
    requires forall k :: k in t && Matches(t[k], userId, itemId) ==> t[k] in rows
    ensures RowsOf(t, SortNewestFirst(rows)) && DistinctIds(SortNewestFirst(rows))
    ensures forall i :: 0 <= i < |SortNewestFirst(rows)| ==> Matches(SortNewestFirst(rows)[i], userId, itemId)
    ensures forall k :: k in t && Matches(t[k], userId, itemId) ==> t[k] in SortNewestFirst(rows)
  {
    AscendingIdsAreDistinct(rows);
    SortKeepsIdsDistinct(rows);
    var sorted := SortNewestFirst(rows);
    PermutationKeepsRows(t, rows, sorted);
    assert forall x :: x in rows ==> Matches(x, userId, itemId);
  }

  /** `WHERE userId = :userId AND isSynced = 0`. */
  function GetUnsyncedRecords(t: RecordTable, userId: string): (r: seq<Record>)
    ensures RowsOf(t, r) && IdsAscending(r)
    ensures forall i :: 0 <= i < |r| ==> r[i].userId == userId && !r[i].isSynced
    ensures forall k :: k in t && t[k].userId == userId && !t[k].isSynced ==> t[k] in r
  {
    SelectRecords(t, (rec: Record) => rec.userId == userId && !rec.isSynced)
  }

  /** `SELECT EXISTS(... timestamp BETWEEN :startTime AND :endTime)`: both ends inclusive, tombstones count. */
  function HasRecordInRange(t: RecordTable, userId: string, itemId: string, startTime: int, endTime: int): (r: bool)
    ensures endTime < startTime ==> !r
    ensures r ==> GetMostRecentRecord(t, userId, itemId).Some?
    ensures r ==> startTime <= TimeKey(GetMostRecentRecord(t, userId, itemId).value)
  {
    exists k :: k in t && Matches(t[k], userId, itemId) && startTime <= TimeKey(t[k]) <= endTime
  }

  /** `SET isDeleted = 1 WHERE recordId`: `lastModified` and `isSynced` stay as they were. */
  function MarkDeleted(t: RecordTable, recordId: string): (r: RecordTable)
    ensures r.Keys == t.Keys
    ensures forall k :: k in t && k != recordId ==> r[k] == t[k]
    ensures recordId in t ==> r[recordId].isDeleted && r[recordId].(isDeleted := t[recordId].isDeleted) == t[recordId]
  {
    if recordId in t then t[recordId := t[recordId].(isDeleted := true)] else t
  }

  /** `ORDER BY timestamp DESC LIMIT 1`: a matching row with the latest timestamp, tombstones included. */
  function GetMostRecentRecord(t: RecordTable, userId: string, itemId: string): (r: Option<Record>)
    ensures r.None? <==> forall k :: k in t ==> !Matches(t[k], userId, itemId)
    ensures r.Some? ==> r.value.recordId in t && t[r.value.recordId] == r.value
    ensures r.Some? ==> Matches(r.value, userId, itemId)
    ensures r.Some? ==> forall k :: k in t && Matches(t[k], userId, itemId) ==> TimeKey(t[k]) <= TimeKey(r.value)
  {
    var rows := GetRecordsByItem(t, userId, itemId);
    if |rows| == 0 then None
    else
      HeadIsNewest(rows);
      Some(rows[0])
  }

  /** The range query agrees with scanning the sorted per-item listing. */
  lemma HasRecordInRangeBySorted(t: RecordTable, userId: string, itemId: string, startTime: int, endTime: int)
    ensures HasRecordInRange(t, userId, itemId, startTime, endTime) <==>
      exists i :: 0 <= i < |GetRecordsByItem(t, userId, itemId)|
        && startTime <= TimeKey(GetRecordsByItem(t, userId, itemId)[i]) <= endTime
  {
    var rows := GetRecordsByItem(t, userId, itemId);
    if HasRecordInRange(t, userId, itemId, startTime, endTime) {
      var k :| k in t && Matches(t[k], userId, itemId) && startTime <= TimeKey(t[k]) <= endTime;
      assert t[k] in rows;
    }
  }
}

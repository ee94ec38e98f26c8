/**
 * `SyncViewModel` (ui/viewmodel/SyncViewModel.kt): one reconciliation pass between the local
 * database and Firestore. The pass pulls items, pulls records, pushes items, pushes records,
 * then saves the watermark. A single-flight flag guards it.
 *
 * Each clock reading the pass takes is a field of `SyncClock`. Each remote call that can
 * throw is switched by a field of `Faults`. The current user is a parameter.
 */
module SyncViewModel {
  import opened Common
  import opened Time
  import opened Entities
  import ItemDao
  import RecordDao
  import Local = LocalRepository
  import Cloud

  /* ---------------------------- the watermark ---------------------------- */

  /** `prefs.getLong("last_sync_ts", 0L)`: an absent key reads as 0. */
  const DefaultWatermark: int := 0

  /**
   * `getLastSyncTimestamp`: `Timestamp(millis / 1000, (millis % 1000) * 1_000_000)` with Java's
   * truncating `/` and `%`. The constructor throws on negative nanoseconds (`None`), which a
   * negative count that is not a whole number of seconds produces.
   */
  function DecodeWatermark(millis: int): (r: Option<Timestamp>)
    ensures r.Some? <==> millis >= 0 || millis % MillisPerSecond == 0
    ensures r.Some? ==> EncodeWatermark(r.value) == millis && r.value.nanos % NanosPerMilli == 0
  {
    JavaRemRange(millis, MillisPerSecond);
    var nanos := JavaRem(millis, MillisPerSecond) * NanosPerMilli;
    if 0 <= nanos then Some(Timestamp(JavaDiv(millis, MillisPerSecond), nanos)) else None
  }

  /** `saveLastSyncTimestamp`: `ts.toDate().time`, whole milliseconds since the epoch. */
  function EncodeWatermark(t: Timestamp): (r: int)
    ensures r / MillisPerSecond == t.seconds
    ensures r % MillisPerSecond == t.nanos / NanosPerMilli
  {
    t.seconds * MillisPerSecond + t.nanos / NanosPerMilli
  }

  /** A timestamp cut down to the millisecond. */
  function TruncateToMillis(t: Timestamp): Timestamp
  {
    Timestamp(t.seconds, t.nanos - t.nanos % NanosPerMilli)
  }

  /** An absent watermark means "everything since the epoch". */
  lemma MissingWatermarkIsEpoch()
    ensures DecodeWatermark(DefaultWatermark) == Some(Epoch)
  {
  }

  /** A watermark saved at or after the epoch reads back as the saved instant, to the millisecond. */
  lemma WatermarkRoundTrip(t: Timestamp)
    requires t.seconds >= 0
    ensures DecodeWatermark(EncodeWatermark(t)) == Some(TruncateToMillis(t))
    ensures Le(TruncateToMillis(t), t)
  {
    var m := EncodeWatermark(t);
    assert m == t.seconds * MillisPerSecond + t.nanos / NanosPerMilli;
    assert m / MillisPerSecond == t.seconds && m % MillisPerSecond == t.nanos / NanosPerMilli;
  }

  /** A watermark saved before the epoch with a non-zero millisecond part cannot be read back. */
  lemma PreEpochWatermarkIsRejected(t: Timestamp)
    requires t.seconds < 0 && t.nanos >= NanosPerMilli
    ensures DecodeWatermark(EncodeWatermark(t)).None?
  {
    var m := EncodeWatermark(t);
    var k := t.nanos / NanosPerMilli;
    assert 1 <= k < MillisPerSecond;
    assert m == (t.seconds + 1) * MillisPerSecond + (k - MillisPerSecond);
    assert m % MillisPerSecond == k;
  }

  /* ------------------------------ the pull ------------------------------ */

  function MarkItemsSynced(xs: seq<Item>): (r: seq<Item>)
    ensures |r| == |xs| && forall i :: 0 <= i < |r| ==> r[i] == xs[i].(isSynced := true)
    ensures forall i :: 0 <= i < |r| ==> r[i].isSynced && r[i].(isSynced := xs[i].isSynced) == xs[i]
  {
    seq(|xs|, i requires 0 <= i < |xs| => xs[i].(isSynced := true))
  }

  function MarkRecordsSynced(xs: seq<Record>): (r: seq<Record>)
    ensures |r| == |xs| && forall i :: 0 <= i < |r| ==> r[i] == xs[i].(isSynced := true)
    ensures forall i :: 0 <= i < |r| ==> r[i].isSynced && r[i].(isSynced := xs[i].isSynced) == xs[i]
  {
    seq(|xs|, i requires 0 <= i < |xs| => xs[i].(isSynced := true))
  }

  /** Marking keeps ids, so a batch with distinct ids stays distinct. */
  lemma MarkedItemsDistinct(xs: seq<Item>)
    requires ItemDao.DistinctIds(xs)
    ensures ItemDao.DistinctIds(MarkItemsSynced(xs))
  {
    var m := MarkItemsSynced(xs);
    assert forall i :: 0 <= i < |m| ==> m[i].itemId == xs[i].itemId;
  }

  lemma MarkedRecordsDistinct(xs: seq<Record>)
    requires RecordDao.DistinctIds(xs)
    ensures RecordDao.DistinctIds(MarkRecordsSynced(xs))
  {
    var m := MarkRecordsSynced(xs);
    assert forall i :: 0 <= i < |m| ==> m[i].recordId == xs[i].recordId;
  }

  /**
   * The records an item pull deletes: those of a stored item whose remote document, newer than
   * the watermark, is a tombstone (`upsertItem` of a tombstone goes through `deleteItem`).
   */
  predicate PulledTombstoneOwns(db: Local.Db, cloud: Cloud.Store, userId: string, since: Timestamp, rec: Record)
  {
    && rec.itemId in db.items
    && RecordDao.Matches(rec, db.items[rec.itemId].userId, rec.itemId)
    && var doc := Cloud.ItemDoc(cloud, userId, rec.itemId);
       doc.Some? && doc.value.isDeleted && Lt(since, doc.value.lastModified)
  }

  /**
   * `pullUpdatedItems`: the query's documents, marked synced, merged in one by one. On the
   * record table, exactly the records of the pulled tombstones' items disappear.
   */
  function PullUpdatedItems(db: Local.Db, cloud: Cloud.Store, userId: string, since: Timestamp, now: Timestamp): (r: Local.Db)
    ensures Cloud.QueryItems(cloud, userId, since) == [] ==> r == db
    ensures forall k :: k in r.records <==>
      k in db.records && !PulledTombstoneOwns(db, cloud, userId, since, db.records[k])
    ensures forall k :: k in r.records ==> r.records[k] == db.records[k]
  {
    var docs := Cloud.QueryItems(cloud, userId, since);
    ItemDao.AscendingIdsAreDistinct(docs);
    MarkedItemsPurge(db, docs, now);
    PulledTombstonesAreQueried(db, cloud, userId, since);
    if |docs| == 0 then db else Local.UpsertItems(db, MarkItemsSynced(docs), now)
  }

  /**
   * `pullUpdatedRecords`, the same over the records collection group. On the item table: each
   * accepted update of a stored record bumps its item's counter once, an item some pulled
   * record touches is re-stamped and unsynced, and every other item row is left alone.
   */
  function PullUpdatedRecords(db: Local.Db, cloud: Cloud.Store, userId: string, since: Timestamp, now: Timestamp): (r: Local.Db)
    ensures Cloud.QueryRecords(cloud, userId, since) == [] ==> r == db
    ensures r.items.Keys == db.items.Keys
    ensures forall k :: k in db.items ==>
      r.items[k].clockInCount == db.items[k].clockInCount + Local.Bumps(db.records, Cloud.QueryRecords(cloud, userId, since), k)
    ensures forall k :: k in db.items ==> r.items[k].isDeleted == db.items[k].isDeleted
    ensures forall k :: k in db.items && Local.AnyTouches(db.records, Cloud.QueryRecords(cloud, userId, since), k) ==>
      Local.ItemStamped(db.items[k], r.items[k], now)
    ensures forall k :: k in db.items && !Local.AnyTouches(db.records, Cloud.QueryRecords(cloud, userId, since), k) ==>
      r.items[k] == db.items[k]
  {
    var docs := Cloud.QueryRecords(cloud, userId, since);
    RecordDao.AscendingIdsAreDistinct(docs);
    MarkedRecordsItemEffect(db, docs, now);
    if |docs| == 0 then db else Local.UpsertRecords(db, MarkRecordsSynced(docs), now)
  }

  /** A pulled item document is a tombstone whose records go exactly when the document says so. */
  lemma PulledTombstonesAreQueried(db: Local.Db, cloud: Cloud.Store, userId: string, since: Timestamp)
    ensures forall x: Record ::
      (Local.PurgedBy(db.items, Cloud.QueryItems(cloud, userId, since), x) <==> PulledTombstoneOwns(db, cloud, userId, since, x))
  {
    var docs := Cloud.QueryItems(cloud, userId, since);
    forall x: Record
      ensures Local.PurgedBy(db.items, docs, x) <==> PulledTombstoneOwns(db, cloud, userId, since, x)
    {
      if Local.PurgedBy(db.items, docs, x) {
        var i :| 0 <= i < |docs| && docs[i].isDeleted && docs[i].itemId in db.items
          && RecordDao.Matches(x, db.items[docs[i].itemId].userId, docs[i].itemId);
        assert Cloud.ItemDoc(cloud, userId, docs[i].itemId) == Some(docs[i]);
      }
      if PulledTombstoneOwns(db, cloud, userId, since, x) {
        var k := x.itemId;
        assert k in Cloud.UserItems(cloud, userId);
        var i :| 0 <= i < |docs| && docs[i].itemId == k;
        assert Cloud.ItemDoc(cloud, userId, k) == Some(docs[i]);
      }
    }
  }

  /** Marking item documents synced keeps what decides which records a batch deletes. */
  lemma MarkedItemsPurge(db: Local.Db, xs: seq<Item>, now: Timestamp)
    requires ItemDao.DistinctIds(xs)
    ensures forall k :: k in Local.UpsertItems(db, MarkItemsSynced(xs), now).records <==>
      k in db.records && !Local.PurgedBy(db.items, xs, db.records[k])
    ensures forall k :: k in Local.UpsertItems(db, MarkItemsSynced(xs), now).records ==>
      Local.UpsertItems(db, MarkItemsSynced(xs), now).records[k] == db.records[k]
  {
    var m := MarkItemsSynced(xs);
    MarkedItemsDistinct(xs);
    Local.UpsertItemsPurgesRecords(db, m, now);
    forall x: Record
      ensures Local.PurgedBy(db.items, m, x) <==> Local.PurgedBy(db.items, xs, x)
    {
      if Local.PurgedBy(db.items, m, x) {
        var i :| 0 <= i < |m| && m[i].isDeleted && m[i].itemId in db.items
          && RecordDao.Matches(x, db.items[m[i].itemId].userId, m[i].itemId);
        assert xs[i].itemId == m[i].itemId;
      }
      if Local.PurgedBy(db.items, xs, x) {
        var i :| 0 <= i < |xs| && xs[i].isDeleted && xs[i].itemId in db.items
          && RecordDao.Matches(x, db.items[xs[i].itemId].userId, xs[i].itemId);
        assert m[i].itemId == xs[i].itemId;
      }
    }
  }

  /** Counting bumps and touches never looks at `isSynced`, so marking a batch changes neither. */
  lemma {:induction false} MarkedRecordsJudgedAlike(t: RecordDao.RecordTable, xs: seq<Record>, k: string)
    ensures Local.Bumps(t, MarkRecordsSynced(xs), k) == Local.Bumps(t, xs, k)
    ensures Local.AnyTouches(t, MarkRecordsSynced(xs), k) <==> Local.AnyTouches(t, xs, k)
    decreases |xs|
  {
    var m := MarkRecordsSynced(xs);
    assert forall i :: 0 <= i < |xs| ==> (Local.TouchesItem(t, m[i], k) <==> Local.TouchesItem(t, xs[i], k));
    if xs != [] {
      assert m[1..] == MarkRecordsSynced(xs[1..]);
      MarkedRecordsJudgedAlike(t, xs[1..], k);
    }
  }

  /** The item side of merging a batch of distinct records, marked synced. */
  lemma MarkedRecordsItemEffect(db: Local.Db, xs: seq<Record>, now: Timestamp)
    requires RecordDao.DistinctIds(xs)
    ensures forall k :: k in db.items ==>
      Local.UpsertRecords(db, MarkRecordsSynced(xs), now).items[k].clockInCount
        == db.items[k].clockInCount + Local.Bumps(db.records, xs, k)
    ensures forall k :: k in db.items ==>
      Local.UpsertRecords(db, MarkRecordsSynced(xs), now).items[k].isDeleted == db.items[k].isDeleted
    ensures forall k :: k in db.items && Local.AnyTouches(db.records, xs, k) ==>
      Local.ItemStamped(db.items[k], Local.UpsertRecords(db, MarkRecordsSynced(xs), now).items[k], now)
    ensures forall k :: k in db.items && !Local.AnyTouches(db.records, xs, k) ==>
      Local.UpsertRecords(db, MarkRecordsSynced(xs), now).items[k] == db.items[k]
  {
    var m := MarkRecordsSynced(xs);
    MarkedRecordsDistinct(xs);
    var r := Local.UpsertRecords(db, m, now);
    forall k | k in db.items
      ensures r.items[k].clockInCount == db.items[k].clockInCount + Local.Bumps(db.records, xs, k)
      ensures r.items[k].isDeleted == db.items[k].isDeleted
      ensures Local.AnyTouches(db.records, xs, k) ==> Local.ItemStamped(db.items[k], r.items[k], now)
      ensures !Local.AnyTouches(db.records, xs, k) ==> r.items[k] == db.items[k]
    {
      Local.UpsertRecordsCounts(db, m, now, k);
      Local.UpsertRecordsStamps(db, m, now, k);
      MarkedRecordsJudgedAlike(db.records, xs, k);
    }
  }

  /** Reference: what one item row becomes when the remote documents newer than `since` are pulled. */
  function PulledItemRow(local: Option<Item>, doc: Option<Item>, since: Timestamp, now: Timestamp): Option<Item>
  {
    if doc.Some? && Lt(since, doc.value.lastModified) then
      Local.MergeItemRow(local, doc.value.(isSynced := true), now)
    else local
  }

  /** Reference: what one record row becomes when the remote documents newer than `since` are pulled. */
  function PulledRecordRow(local: Option<Record>, doc: Option<Record>, userId: string, since: Timestamp,
                           now: Timestamp): Option<Record>
  {
    if doc.Some? && doc.value.userId == userId && Lt(since, doc.value.lastModified) then
      Local.MergeRecordRow(local, doc.value.(isSynced := true), now)
    else local
  }

  /**
   * The item pull is a row-by-row merge. Every local row whose remote document is newer than
   * the watermark is merged with that document. Every other row is left alone.
   */
  lemma PullItemsMergesEachRow(db: Local.Db, cloud: Cloud.Store, userId: string, since: Timestamp, now: Timestamp)
    ensures forall k ::
      ItemDao.GetItemById(PullUpdatedItems(db, cloud, userId, since, now).items, k)
        == PulledItemRow(ItemDao.GetItemById(db.items, k), Cloud.ItemDoc(cloud, userId, k), since, now)
  {
    forall k
      ensures ItemDao.GetItemById(PullUpdatedItems(db, cloud, userId, since, now).items, k)
        == PulledItemRow(ItemDao.GetItemById(db.items, k), Cloud.ItemDoc(cloud, userId, k), since, now)
    {
      PulledItemRowAt(db, cloud, userId, since, now, k);
    }
  }

  /** The pull's merge at one item row. */
  lemma PulledItemRowAt(db: Local.Db, cloud: Cloud.Store, userId: string, since: Timestamp, now: Timestamp, k: string)
    ensures ItemDao.GetItemById(Local.UpsertItems(db, MarkItemsSynced(Cloud.QueryItems(cloud, userId, since)), now).items, k)
      == PulledItemRow(ItemDao.GetItemById(db.items, k), Cloud.ItemDoc(cloud, userId, k), since, now)
  {
    var docs := Cloud.QueryItems(cloud, userId, since);
    var marked := MarkItemsSynced(docs);
    ItemDao.AscendingIdsAreDistinct(docs);
    MarkedItemsDistinct(docs);
    Local.UpsertItemsRowwise(db, marked, now);
    var doc := Cloud.ItemDoc(cloud, userId, k);
    if doc.Some? && Lt(since, doc.value.lastModified) {
      var i :| 0 <= i < |docs| && docs[i].itemId == k;
      assert marked[i] == doc.value.(isSynced := true);
    } else {
      assert forall i :: 0 <= i < |marked| ==> marked[i].itemId != k;
    }
  }

  /** The record pull, row by row on the record table, as `PullItemsMergesEachRow`. */
  lemma PullRecordsMergesEachRow(db: Local.Db, cloud: Cloud.Store, userId: string, since: Timestamp, now: Timestamp)
    ensures forall k ::
      RecordDao.GetRecordById(PullUpdatedRecords(db, cloud, userId, since, now).records, k)
        == PulledRecordRow(RecordDao.GetRecordById(db.records, k), Cloud.RecordDoc(cloud, k), userId, since, now)
  {
    forall k
      ensures RecordDao.GetRecordById(PullUpdatedRecords(db, cloud, userId, since, now).records, k)
        == PulledRecordRow(RecordDao.GetRecordById(db.records, k), Cloud.RecordDoc(cloud, k), userId, since, now)
    {
      PulledRecordRowAt(db, cloud, userId, since, now, k);
    }
  }

  /** The pull's merge at one record row. */
  lemma PulledRecordRowAt(db: Local.Db, cloud: Cloud.Store, userId: string, since: Timestamp, now: Timestamp, k: string)
    ensures RecordDao.GetRecordById(Local.UpsertRecords(db, MarkRecordsSynced(Cloud.QueryRecords(cloud, userId, since)), now).records, k)
      == PulledRecordRow(RecordDao.GetRecordById(db.records, k), Cloud.RecordDoc(cloud, k), userId, since, now)
  {
    var docs := Cloud.QueryRecords(cloud, userId, since);
    var marked := MarkRecordsSynced(docs);
    RecordDao.AscendingIdsAreDistinct(docs);
    MarkedRecordsDistinct(docs);
    Local.UpsertRecordsRowwise(db, marked, now);
    var doc := Cloud.RecordDoc(cloud, k);
    if doc.Some? && doc.value.userId == userId && Lt(since, doc.value.lastModified) {
      var i :| 0 <= i < |docs| && docs[i].recordId == k;
      assert marked[i] == doc.value.(isSynced := true);
    } else {
      assert forall i :: 0 <= i < |marked| ==> marked[i].recordId != k;
    }
  }

  /* ------------------------------ the push ------------------------------ */

  /** The local database and the remote store after a push, and whether it returned normally. */
  datatype Pushed = Pushed(db: Local.Db, cloud: Cloud.Store, ok: bool)

  /** A row of `userId` that the push must upload. */
  predicate DirtyItem(t: ItemDao.ItemTable, userId: string, k: string)
  {
    k in t && t[k].userId == userId && !t[k].isSynced
  }

  predicate DirtyRecord(t: RecordDao.RecordTable, userId: string, k: string)
  {
    k in t && t[k].userId == userId && !t[k].isSynced
  }

  /**
   * `pushUnsyncedItems`: every unsynced item of the user is uploaded with a fresh
   * `lastModified`. Only after every upload returned are they marked synced, through
   * `upsertItems`. A failing upload leaves the local database as it was.
   */
  function PushUnsyncedItems(db: Local.Db, cloud: Cloud.Store, userId: string, writeClock: nat -> Timestamp,
                             markNow: Timestamp, failAt: Option<nat>): (r: Pushed)
    ensures r.ok <==> Cloud.Completes(|Local.GetUnsyncedItems(db, userId)|, failAt)
    ensures !r.ok ==> r.db == db
    ensures r.cloud.records == cloud.records
  {
    var unsynced := Local.GetUnsyncedItems(db, userId);
    if |unsynced| == 0 then Pushed(db, cloud, true)
    else
      var w := Cloud.SetItems(cloud, userId, unsynced, writeClock, failAt);
      if !w.ok then Pushed(db, w.store, false)
      else Pushed(Local.UpsertItems(db, MarkItemsSynced(unsynced), markNow), w.store, true)
  }

  /** `pushUnsyncedRecords`, the same over records. */
  function PushUnsyncedRecords(db: Local.Db, cloud: Cloud.Store, userId: string, writeClock: nat -> Timestamp,
                               markNow: Timestamp, failAt: Option<nat>): (r: Pushed)
    ensures r.ok <==> Cloud.Completes(|Local.GetUnsyncedRecords(db, userId)|, failAt)
    ensures !r.ok ==> r.db == db
    ensures r.cloud.items == cloud.items
  {
    var unsynced := Local.GetUnsyncedRecords(db, userId);
    if |unsynced| == 0 then Pushed(db, cloud, true)
    else
      var w := Cloud.SetRecords(cloud, unsynced, writeClock, failAt);
      if !w.ok then Pushed(db, w.store, false)
      else Pushed(Local.UpsertRecords(db, MarkRecordsSynced(unsynced), markNow), w.store, true)
  }

  /** Reference: what the item push's marking step leaves in one local row. */
  function MarkedItemRow(t: ItemDao.ItemTable, userId: string, k: string, markNow: Timestamp): Option<Item>
  {
    if !DirtyItem(t, userId, k) then ItemDao.GetItemById(t, k)
    else if t[k].isDeleted then Some(t[k].(lastModified := Local.StampOf(markNow), isSynced := false))
    else Some(t[k].(isSynced := true))
  }

  /** Reference: what the record push's marking step leaves in one local record row. */
  function MarkedRecordRow(t: RecordDao.RecordTable, userId: string, k: string, markNow: Timestamp): Option<Record>
  {
    if !DirtyRecord(t, userId, k) then RecordDao.GetRecordById(t, k)
    else if t[k].isDeleted then Some(t[k].(lastModified := Local.StampOf(markNow), isSynced := false))
    else Some(t[k].(isSynced := true))
  }

  /** A stored row merged with itself marked synced: as `MarkedItemRow` says for a dirty row. */
  lemma MergeOwnItemRow(l: Item, now: Timestamp)
    requires IsStoredItem(l)
    ensures Local.MergeItemRow(Some(l), l.(isSynced := true), now)
      == if l.isDeleted then Some(l.(lastModified := Local.StampOf(now), isSynced := false)) else Some(l.(isSynced := true))
  {
  }

  lemma MergeOwnRecordRow(l: Record, now: Timestamp)
    requires IsStoredRecord(l)
    ensures Local.MergeRecordRow(Some(l), l.(isSynced := true), now)
      == if l.isDeleted then Some(l.(lastModified := Local.StampOf(now), isSynced := false)) else Some(l.(isSynced := true))
  {
  }

  /** Merging the user's unsynced items, marked synced, back into the table they came from, at one row. */
  lemma MarkingItemRowAt(db: Local.Db, userId: string, markNow: Timestamp, k: string)
    ensures ItemDao.GetItemById(Local.UpsertItems(db, MarkItemsSynced(Local.GetUnsyncedItems(db, userId)), markNow).items, k)
      == MarkedItemRow(db.items, userId, k, markNow)
  {
    var unsynced := Local.GetUnsyncedItems(db, userId);
    var marked := MarkItemsSynced(unsynced);
    ItemDao.AscendingIdsAreDistinct(unsynced);
    MarkedItemsDistinct(unsynced);
    Local.UpsertItemsRowwise(db, marked, markNow);
    DirtyItemsAreListed(db, userId, k);
    if DirtyItem(db.items, userId, k) {
      var j :| 0 <= j < |unsynced| && unsynced[j].itemId == k;
      assert marked[j] == db.items[k].(isSynced := true);
      MergeOwnItemRow(db.items[k], markNow);
    } else {
      assert forall i :: 0 <= i < |marked| ==> marked[i].itemId != k;
    }
  }

  /** Merging the user's unsynced items, marked synced, back: `MarkedItemRow` on every row. */
  lemma MarkingMergesEachItemRow(db: Local.Db, userId: string, markNow: Timestamp)
    ensures forall k ::
      ItemDao.GetItemById(Local.UpsertItems(db, MarkItemsSynced(Local.GetUnsyncedItems(db, userId)), markNow).items, k)
        == MarkedItemRow(db.items, userId, k, markNow)
  {
    forall k
      ensures ItemDao.GetItemById(Local.UpsertItems(db, MarkItemsSynced(Local.GetUnsyncedItems(db, userId)), markNow).items, k)
        == MarkedItemRow(db.items, userId, k, markNow)
    {
      MarkingItemRowAt(db, userId, markNow, k);
    }
  }

  /** Merging the user's unsynced records, marked synced, back into the table they came from, at one row. */
  lemma MarkingRecordRowAt(db: Local.Db, userId: string, markNow: Timestamp, k: string)
    ensures RecordDao.GetRecordById(Local.UpsertRecords(db, MarkRecordsSynced(Local.GetUnsyncedRecords(db, userId)), markNow).records, k)
      == MarkedRecordRow(db.records, userId, k, markNow)
  {
    var unsynced := Local.GetUnsyncedRecords(db, userId);
    var marked := MarkRecordsSynced(unsynced);
    RecordDao.AscendingIdsAreDistinct(unsynced);
    MarkedRecordsDistinct(unsynced);
    Local.UpsertRecordsRowwise(db, marked, markNow);
    DirtyRecordsAreListed(db, userId, k);
    if DirtyRecord(db.records, userId, k) {
      var j :| 0 <= j < |unsynced| && unsynced[j].recordId == k;
      assert marked[j] == db.records[k].(isSynced := true);
      MergeOwnRecordRow(db.records[k], markNow);
    } else {
      assert forall i :: 0 <= i < |marked| ==> marked[i].recordId != k;
    }
  }

  /** Merging the user's unsynced records, marked synced, back: `MarkedRecordRow` on every row. */
  lemma MarkingMergesEachRecordRow(db: Local.Db, userId: string, markNow: Timestamp)
    ensures forall k ::
      RecordDao.GetRecordById(Local.UpsertRecords(db, MarkRecordsSynced(Local.GetUnsyncedRecords(db, userId)), markNow).records, k)
        == MarkedRecordRow(db.records, userId, k, markNow)
  {
    forall k
      ensures RecordDao.GetRecordById(Local.UpsertRecords(db, MarkRecordsSynced(Local.GetUnsyncedRecords(db, userId)), markNow).records, k)
        == MarkedRecordRow(db.records, userId, k, markNow)
    {
      MarkingRecordRowAt(db, userId, markNow, k);
    }
  }

  lemma DirtyItemsAreListed(db: Local.Db, userId: string, k: string)
    ensures DirtyItem(db.items, userId, k) <==>
      exists j :: 0 <= j < |Local.GetUnsyncedItems(db, userId)| && Local.GetUnsyncedItems(db, userId)[j].itemId == k
  {
    var unsynced := Local.GetUnsyncedItems(db, userId);
    if DirtyItem(db.items, userId, k) {
      assert db.items[k] in unsynced;
    }
  }

  lemma DirtyRecordsAreListed(db: Local.Db, userId: string, k: string)
    ensures DirtyRecord(db.records, userId, k) <==>
      exists j :: 0 <= j < |Local.GetUnsyncedRecords(db, userId)| && Local.GetUnsyncedRecords(db, userId)[j].recordId == k
  {
    var unsynced := Local.GetUnsyncedRecords(db, userId);
    if DirtyRecord(db.records, userId, k) {
      assert db.records[k] in unsynced;
    }
  }

  /**
   * Remotely, each upload made before the failure (or every upload) holds the local row
   * with that write's own clock reading. No other document of the user changed.
   */
  lemma PushItemsUploads(db: Local.Db, cloud: Cloud.Store, userId: string, writeClock: nat -> Timestamp,
                         markNow: Timestamp, failAt: Option<nat>)
    ensures var unsynced := Local.GetUnsyncedItems(db, userId);
      var r := PushUnsyncedItems(db, cloud, userId, writeClock, markNow, failAt);
      forall j :: 0 <= j < Cloud.Reached(|unsynced|, failAt) ==>
        Cloud.ItemDoc(r.cloud, userId, unsynced[j].itemId) == Some(unsynced[j].(lastModified := writeClock(j)))
    ensures var r := PushUnsyncedItems(db, cloud, userId, writeClock, markNow, failAt);
      forall k :: !DirtyItem(db.items, userId, k) ==> Cloud.ItemDoc(r.cloud, userId, k) == Cloud.ItemDoc(cloud, userId, k)
  {
    var unsynced := Local.GetUnsyncedItems(db, userId);
    ItemDao.AscendingIdsAreDistinct(unsynced);
    Cloud.SetItemsWrites(cloud, userId, unsynced, writeClock, failAt);
    forall k | !DirtyItem(db.items, userId, k)
      ensures forall j :: 0 <= j < |unsynced| ==> unsynced[j].itemId != k
    {
      DirtyItemsAreListed(db, userId, k);
    }
  }

  /**
   * Locally, after a normal return, a pushed live row is the same row marked synced. A pushed
   * tombstone is re-stamped and is still unsynced. Every other row is unchanged.
   */
  lemma PushItemsMarks(db: Local.Db, cloud: Cloud.Store, userId: string, writeClock: nat -> Timestamp,
                       markNow: Timestamp, failAt: Option<nat>)
    requires PushUnsyncedItems(db, cloud, userId, writeClock, markNow, failAt).ok
    ensures PushUnsyncedItems(db, cloud, userId, writeClock, markNow, failAt).db
      == Local.UpsertItems(db, MarkItemsSynced(Local.GetUnsyncedItems(db, userId)), markNow)
    ensures forall k ::
      ItemDao.GetItemById(PushUnsyncedItems(db, cloud, userId, writeClock, markNow, failAt).db.items, k)
        == MarkedItemRow(db.items, userId, k, markNow)
  {
    var unsynced := Local.GetUnsyncedItems(db, userId);
    MarkingMergesEachItemRow(db, userId, markNow);
    if |unsynced| == 0 {
      forall k ensures !DirtyItem(db.items, userId, k) {
        DirtyItemsAreListed(db, userId, k);
      }
    }
  }

  /** The record counterpart of `PushItemsUploads`. */
  lemma PushRecordsUploads(db: Local.Db, cloud: Cloud.Store, userId: string, writeClock: nat -> Timestamp,
                           markNow: Timestamp, failAt: Option<nat>)
    ensures var unsynced := Local.GetUnsyncedRecords(db, userId);
      var r := PushUnsyncedRecords(db, cloud, userId, writeClock, markNow, failAt);
      forall j :: 0 <= j < Cloud.Reached(|unsynced|, failAt) ==>
        Cloud.RecordDoc(r.cloud, unsynced[j].recordId) == Some(unsynced[j].(lastModified := writeClock(j)))
    ensures var r := PushUnsyncedRecords(db, cloud, userId, writeClock, markNow, failAt);
      forall k :: !DirtyRecord(db.records, userId, k) ==> Cloud.RecordDoc(r.cloud, k) == Cloud.RecordDoc(cloud, k)
  {
    var unsynced := Local.GetUnsyncedRecords(db, userId);
    RecordDao.AscendingIdsAreDistinct(unsynced);
    Cloud.SetRecordsWrites(cloud, unsynced, writeClock, failAt);
    forall k | !DirtyRecord(db.records, userId, k)
      ensures forall j :: 0 <= j < |unsynced| ==> unsynced[j].recordId != k
    {
      DirtyRecordsAreListed(db, userId, k);
    }
  }

  /** The record counterpart of `PushItemsMarks`, on the record table. */
  lemma PushRecordsMarks(db: Local.Db, cloud: Cloud.Store, userId: string, writeClock: nat -> Timestamp,
                         markNow: Timestamp, failAt: Option<nat>)
    requires PushUnsyncedRecords(db, cloud, userId, writeClock, markNow, failAt).ok
    ensures PushUnsyncedRecords(db, cloud, userId, writeClock, markNow, failAt).db
      == Local.UpsertRecords(db, MarkRecordsSynced(Local.GetUnsyncedRecords(db, userId)), markNow)
    ensures forall k ::
      RecordDao.GetRecordById(PushUnsyncedRecords(db, cloud, userId, writeClock, markNow, failAt).db.records, k)
        == MarkedRecordRow(db.records, userId, k, markNow)
  {
    var unsynced := Local.GetUnsyncedRecords(db, userId);
    MarkingMergesEachRecordRow(db, userId, markNow);
    if |unsynced| == 0 {
      forall k ensures !DirtyRecord(db.records, userId, k) {
        DirtyRecordsAreListed(db, userId, k);
      }
    }
  }

  /** A push of a single unsynced record that returns marks it by one `upsertRecord`. */
  lemma PushSingleRecord(db: Local.Db, cloud: Cloud.Store, userId: string, writeClock: nat -> Timestamp,
                         markNow: Timestamp, failAt: Option<nat>, rec: Record)
    requires Local.GetUnsyncedRecords(db, userId) == [rec]
    requires Cloud.Completes(1, failAt)
    ensures var r := PushUnsyncedRecords(db, cloud, userId, writeClock, markNow, failAt);
      r.ok && r.db == Local.UpsertRecord(db, rec.(isSynced := true), markNow)
  {
    var marked := MarkRecordsSynced([rec]);
    assert marked == [rec.(isSynced := true)];
    var db1 := Local.UpsertRecord(db, rec.(isSynced := true), markNow);
    assert marked[1..] == [];
    assert Local.UpsertRecords(db, marked, markNow) == Local.UpsertRecords(db1, [], markNow) == db1;
  }

  /**
   * Marking a pushed record synced goes through `upsertRecord`, which finds the record already
   * stored and so bumps its item's counter once more.
   */
  lemma PushRecordBumpsCount(db: Local.Db, cloud: Cloud.Store, userId: string, writeClock: nat -> Timestamp,
                             markNow: Timestamp, failAt: Option<nat>, rec: Record)
    requires Local.GetUnsyncedRecords(db, userId) == [rec]
    requires !rec.isDeleted && rec.itemId in db.items
    requires Cloud.Completes(1, failAt)
    ensures var r := PushUnsyncedRecords(db, cloud, userId, writeClock, markNow, failAt);
      r.ok && rec.itemId in r.db.items
      && r.db.items[rec.itemId].clockInCount == db.items[rec.itemId].clockInCount + 1
  {
    PushSingleRecord(db, cloud, userId, writeClock, markNow, failAt, rec);
    assert RecordDao.RowsOf(db.records, [rec]);
    assert rec.recordId in db.records && db.records[rec.recordId] == rec;
  }

  /** A record of one of the user's unsynced item tombstones: the item push's marking deletes it. */
  predicate DirtyTombstoneOwns(t: ItemDao.ItemTable, userId: string, rec: Record)
  {
    DirtyItem(t, userId, rec.itemId) && t[rec.itemId].isDeleted && rec.userId == userId
  }

  /**
   * The record side of the item push. Marking hands each pushed tombstone back to
   * `upsertItem`, which deletes it again through `deleteItem` and so removes its item's
   * records. After a normal return exactly those records are gone. No record row changes.
   */
  lemma PushItemsPurgesRecords(db: Local.Db, cloud: Cloud.Store, userId: string, writeClock: nat -> Timestamp,
                               markNow: Timestamp, failAt: Option<nat>)
    ensures var r := PushUnsyncedItems(db, cloud, userId, writeClock, markNow, failAt);
      r.ok ==> forall k :: k in r.db.records <==> k in db.records && !DirtyTombstoneOwns(db.items, userId, db.records[k])
    ensures var r := PushUnsyncedItems(db, cloud, userId, writeClock, markNow, failAt);
      forall k :: k in r.db.records ==> r.db.records[k] == db.records[k]
  {
    var unsynced := Local.GetUnsyncedItems(db, userId);
    ItemDao.AscendingIdsAreDistinct(unsynced);
    MarkedItemsPurge(db, unsynced, markNow);
    DirtyTombstonesArePushed(db, userId);
  }

  /** The tombstones among the user's unsynced items delete exactly the records of those items. */
  lemma DirtyTombstonesArePushed(db: Local.Db, userId: string)
    ensures forall x: Record ::
      (Local.PurgedBy(db.items, Local.GetUnsyncedItems(db, userId), x) <==> DirtyTombstoneOwns(db.items, userId, x))
  {
    var unsynced := Local.GetUnsyncedItems(db, userId);
    forall x: Record
      ensures Local.PurgedBy(db.items, unsynced, x) <==> DirtyTombstoneOwns(db.items, userId, x)
    {
      DirtyItemsAreListed(db, userId, x.itemId);
      if Local.PurgedBy(db.items, unsynced, x) {
        var i :| 0 <= i < |unsynced| && unsynced[i].isDeleted && unsynced[i].itemId in db.items
          && RecordDao.Matches(x, db.items[unsynced[i].itemId].userId, unsynced[i].itemId);
        assert db.items[unsynced[i].itemId] == unsynced[i];
      }
      if DirtyTombstoneOwns(db.items, userId, x) {
        var j :| 0 <= j < |unsynced| && unsynced[j].itemId == x.itemId;
        assert db.items[unsynced[j].itemId] == unsynced[j];
      }
    }
  }

  /**
   * The item side of the record push. Every pushed record touches its own item: a live one
   * is an accepted update of itself, and a tombstone is deleted again. So after a normal
   * return each pushed live record has bumped its item's counter once more, and each item
   * a pushed record names is re-stamped and unsynced.
   */
  lemma PushRecordsItemEffect(db: Local.Db, cloud: Cloud.Store, userId: string, writeClock: nat -> Timestamp,
                              markNow: Timestamp, failAt: Option<nat>)
    ensures var unsynced := Local.GetUnsyncedRecords(db, userId);
      forall i, k :: 0 <= i < |unsynced| ==>
        (Local.BumpsItem(db.records, unsynced[i], k) <==> !unsynced[i].isDeleted && unsynced[i].itemId == k)
    ensures var unsynced := Local.GetUnsyncedRecords(db, userId);
      forall i, k :: 0 <= i < |unsynced| ==> (Local.TouchesItem(db.records, unsynced[i], k) <==> unsynced[i].itemId == k)
    ensures var r := PushUnsyncedRecords(db, cloud, userId, writeClock, markNow, failAt);
      r.ok ==> forall k :: k in db.items ==>
        r.db.items[k].clockInCount == db.items[k].clockInCount + Local.Bumps(db.records, Local.GetUnsyncedRecords(db, userId), k)
    ensures var r := PushUnsyncedRecords(db, cloud, userId, writeClock, markNow, failAt);
      r.ok ==> forall k :: k in db.items && Local.AnyTouches(db.records, Local.GetUnsyncedRecords(db, userId), k) ==>
        Local.ItemStamped(db.items[k], r.db.items[k], markNow)
    ensures var r := PushUnsyncedRecords(db, cloud, userId, writeClock, markNow, failAt);
      r.ok ==> forall k :: k in db.items && !Local.AnyTouches(db.records, Local.GetUnsyncedRecords(db, userId), k) ==>
        r.db.items[k] == db.items[k]
  {
    var unsynced := Local.GetUnsyncedRecords(db, userId);
    RecordDao.AscendingIdsAreDistinct(unsynced);
    MarkedRecordsItemEffect(db, unsynced, markNow);
    assert forall i :: 0 <= i < |unsynced| ==> db.records[unsynced[i].recordId] == unsynced[i];
  }

  /* ------------------------------ the pass ------------------------------ */

  /** The view model's state: the single-flight flag, the stored watermark, both stores. */
  datatype State = State(isSyncing: bool, lastSync: Option<int>, db: Local.Db, cloud: Cloud.Store)

  /** The steps of `performSync`, in the order it takes them. */
  datatype Phase = PullItems | PullRecords | PushItems | PushRecords | SaveWatermark

  const Phases: seq<Phase> := [PullItems, PullRecords, PushItems, PushRecords, SaveWatermark]

  /** Every `Timestamp.now()` the pass reads, one per call site (per write for the uploads). */
  datatype SyncClock = SyncClock(
    pullItems: Timestamp, pullRecords: Timestamp,
    itemWrite: nat -> Timestamp, markItems: Timestamp,
    recordWrite: nat -> Timestamp, markRecords: Timestamp,
    save: Timestamp)

  /** Which remote calls throw: the two query `get()`s, and the upload (by position) at which each push fails. */
  datatype Faults = Faults(pullItems: bool, pullRecords: bool, pushItems: Option<nat>, pushRecords: Option<nat>)

  const NoFaults: Faults := Faults(false, false, None, None)

  /** The state after a step, and whether the step returned normally. */
  datatype StepResult = StepResult(state: State, ok: bool)

  /** A sync pass's outcome: the final state and the steps that returned normally. */
  datatype Run = Run(state: State, completed: seq<Phase>)

  function Step(p: Phase, st: State, userId: string, since: Timestamp, clock: SyncClock, faults: Faults): (r: StepResult)
    ensures r.state.isSyncing == st.isSyncing
    ensures p != SaveWatermark ==> r.state.lastSync == st.lastSync
    ensures p == SaveWatermark ==> r.ok && r.state.lastSync == Some(EncodeWatermark(clock.save))
    ensures (p == PullItems || p == PullRecords) ==> r.state.cloud == st.cloud
    ensures !r.ok ==> r.state.db == st.db
    ensures faults == NoFaults ==> r.ok
    ensures p == PullItems ==>
      r.ok == !faults.pullItems && (r.ok ==> r.state == st.(db := PullUpdatedItems(st.db, st.cloud, userId, since, clock.pullItems)))
    ensures p == PullRecords ==>
      r.ok == !faults.pullRecords && (r.ok ==> r.state == st.(db := PullUpdatedRecords(st.db, st.cloud, userId, since, clock.pullRecords)))
    ensures p == PushItems ==> var o := PushUnsyncedItems(st.db, st.cloud, userId, clock.itemWrite, clock.markItems, faults.pushItems);
      r.ok == o.ok && r.state == st.(db := o.db, cloud := o.cloud)
    ensures p == PushRecords ==> var o := PushUnsyncedRecords(st.db, st.cloud, userId, clock.recordWrite, clock.markRecords, faults.pushRecords);
      r.ok == o.ok && r.state == st.(db := o.db, cloud := o.cloud)
  {
    match p
    case PullItems =>
      if faults.pullItems then StepResult(st, false)
      else StepResult(st.(db := PullUpdatedItems(st.db, st.cloud, userId, since, clock.pullItems)), true)
    case PullRecords =>
      if faults.pullRecords then StepResult(st, false)
      else StepResult(st.(db := PullUpdatedRecords(st.db, st.cloud, userId, since, clock.pullRecords)), true)
    case PushItems =>
      var o := PushUnsyncedItems(st.db, st.cloud, userId, clock.itemWrite, clock.markItems, faults.pushItems);
      StepResult(st.(db := o.db, cloud := o.cloud), o.ok)
    case PushRecords =>
      var o := PushUnsyncedRecords(st.db, st.cloud, userId, clock.recordWrite, clock.markRecords, faults.pushRecords);
      StepResult(st.(db := o.db, cloud := o.cloud), o.ok)
    case SaveWatermark =>
      StepResult(st.(lastSync := Some(EncodeWatermark(clock.save))), true)
  }

  /** Runs `ps` in order; a step that throws ends the run, and later steps never start. */
  function RunPhases(ps: seq<Phase>, st: State, userId: string, since: Timestamp, clock: SyncClock,
                     faults: Faults): (r: Run)
    ensures r.state.isSyncing == st.isSyncing
    ensures |r.completed| <= |ps| && r.completed == ps[..|r.completed|]
    ensures SaveWatermark !in r.completed ==> r.state.lastSync == st.lastSync
    decreases |ps|
  {
    if ps == [] then Run(st, [])
    else
      var s := Step(ps[0], st, userId, since, clock, faults);
      if !s.ok then Run(s.state, [])
      else
        var rest := RunPhases(ps[1..], s.state, userId, since, clock, faults);
        assert [ps[0]] + rest.completed == ps[..|rest.completed| + 1];
        Run(rest.state, [ps[0]] + rest.completed)
  }

  /** A run that completes a list ending in the save holds the save-time reading as its watermark. */
  lemma {:induction false} RunEndingInSave(ps: seq<Phase>, st: State, userId: string, since: Timestamp,
                                           clock: SyncClock, faults: Faults)
    requires |ps| > 0 && ps[|ps| - 1] == SaveWatermark
    ensures RunPhases(ps, st, userId, since, clock, faults).completed == ps ==>
      RunPhases(ps, st, userId, since, clock, faults).state.lastSync == Some(EncodeWatermark(clock.save))
    decreases |ps|
  {
    var s := Step(ps[0], st, userId, since, clock, faults);
    if |ps| > 1 && s.ok {
      assert ps[1..][|ps[1..]| - 1] == SaveWatermark;
      RunEndingInSave(ps[1..], s.state, userId, since, clock, faults);
    }
  }

  /** Without faults every step runs. */
  lemma {:induction false} RunWithoutFaults(ps: seq<Phase>, st: State, userId: string, since: Timestamp, clock: SyncClock)
    ensures RunPhases(ps, st, userId, since, clock, NoFaults).completed == ps
    decreases |ps|
  {
    if ps != [] {
      var s := Step(ps[0], st, userId, since, clock, NoFaults);
      RunWithoutFaults(ps[1..], s.state, userId, since, clock);
    }
  }

  /** The save is the last step, so a run that stopped early never reached it. */
  lemma SaveOnlyLast(n: nat)
    requires n <= |Phases|
    ensures SaveWatermark in Phases[..n] <==> n == |Phases|
  {
    assert Phases[..n] == Phases ==> n == |Phases|;
  }

  /**
   * `performSync`. The watermark is read first, and a value that cannot be decoded throws
   * before anything else happens. Otherwise the steps run in the fixed order. The watermark
   * changes only when every step returned, and then it holds the save-time clock reading.
   * The single-flight flag is not touched.
   */
  function PerformSync(st: State, userId: string, clock: SyncClock, faults: Faults): (r: Run)
    ensures r.state.isSyncing == st.isSyncing
    ensures |r.completed| <= |Phases| && r.completed == Phases[..|r.completed|]
    ensures r.completed == Phases ==> r.state.lastSync == Some(EncodeWatermark(clock.save))
    ensures r.completed != Phases ==> r.state.lastSync == st.lastSync
    ensures DecodeWatermark(st.lastSync.GetOr(DefaultWatermark)).None? ==> r == Run(st, [])
    ensures DecodeWatermark(st.lastSync.GetOr(DefaultWatermark)).Some? && faults == NoFaults ==> r.completed == Phases
  {
    match DecodeWatermark(st.lastSync.GetOr(DefaultWatermark))
    case None => Run(st, [])
    case Some(since) =>
      var r := RunPhases(Phases, st, userId, since, clock, faults);
      RunWithoutFaults(Phases, st, userId, since, clock);
      RunEndingInSave(Phases, st, userId, since, clock, faults);
      SaveOnlyLast(|r.completed|);
      r
  }

  /**
   * `sync`: a call made while a pass is in flight does nothing. Otherwise the flag is raised,
   * the pass runs with the flag up, and the flag is lowered however the pass ended.
   */
  function Sync(st: State, userId: string, clock: SyncClock, faults: Faults): (r: Run)
    ensures st.isSyncing ==> r == Run(st, [])
    ensures !st.isSyncing ==> !r.state.isSyncing
    ensures !st.isSyncing ==> r.completed == PerformSync(st.(isSyncing := true), userId, clock, faults).completed
    ensures !st.isSyncing ==> r.state == PerformSync(st.(isSyncing := true), userId, clock, faults).state.(isSyncing := false)
    ensures r.completed == Phases ==> r.state.lastSync == Some(EncodeWatermark(clock.save))
    ensures r.completed != Phases ==> r.state.lastSync == st.lastSync
  {
    if st.isSyncing then Run(st, [])
    else
      var run := PerformSync(st.(isSyncing := true), userId, clock, faults);
      Run(run.state.(isSyncing := false), run.completed)
  }

  /**
   * Reference: `performSync` once the watermark has decoded to `since`, written phase by phase
   * with the repository and remote calls themselves. Each phase works on the stores the one
   * before it left. The first phase that throws ends the pass with the stores as they were when
   * it threw: a pull that throws has changed nothing, and a push that throws keeps the uploads
   * it made but has not touched the local tables.
   */
  function Pass(st: State, userId: string, since: Timestamp, clock: SyncClock, faults: Faults): Run
  {
    if faults.pullItems then Run(st, [])
    else
      var rest := PassFromPullRecords(st.(db := PullUpdatedItems(st.db, st.cloud, userId, since, clock.pullItems)),
                                      userId, since, clock, faults);
      Run(rest.state, [PullItems] + rest.completed)
  }

  /** `Pass` from the record pull on. */
  function PassFromPullRecords(st: State, userId: string, since: Timestamp, clock: SyncClock, faults: Faults): Run
  {
    if faults.pullRecords then Run(st, [])
    else
      var rest := PassFromPushItems(st.(db := PullUpdatedRecords(st.db, st.cloud, userId, since, clock.pullRecords)),
                                    userId, clock, faults);
      Run(rest.state, [PullRecords] + rest.completed)
  }

  /** `Pass` from the item push on; a failed push keeps its uploads and the local tables as they were. */
  function PassFromPushItems(st: State, userId: string, clock: SyncClock, faults: Faults): Run
  {
    var o := PushUnsyncedItems(st.db, st.cloud, userId, clock.itemWrite, clock.markItems, faults.pushItems);
    if !o.ok then Run(st.(cloud := o.cloud), [])
    else
      var rest := PassFromPushRecords(st.(db := o.db, cloud := o.cloud), userId, clock, faults);
      Run(rest.state, [PushItems] + rest.completed)
  }

  /** `Pass` from the record push on: the push, then the save if the push returned. */
  function PassFromPushRecords(st: State, userId: string, clock: SyncClock, faults: Faults): Run
  {
    var o := PushUnsyncedRecords(st.db, st.cloud, userId, clock.recordWrite, clock.markRecords, faults.pushRecords);
    if !o.ok then Run(st.(cloud := o.cloud), [])
    else Run(st.(db := o.db, cloud := o.cloud, lastSync := Some(EncodeWatermark(clock.save))), [PushRecords, SaveWatermark])
  }

  /** One step of `RunPhases`: the head runs, and the rest runs only if it returned normally. */
  lemma RunPhasesCons(p: Phase, ps: seq<Phase>, st: State, userId: string, since: Timestamp, clock: SyncClock,
                      faults: Faults)
    ensures var s := Step(p, st, userId, since, clock, faults);
      var r := RunPhases([p] + ps, st, userId, since, clock, faults);
      if !s.ok then r == Run(s.state, [])
      else r == Run(RunPhases(ps, s.state, userId, since, clock, faults).state,
                    [p] + RunPhases(ps, s.state, userId, since, clock, faults).completed)
  {
    assert ([p] + ps)[0] == p && ([p] + ps)[1..] == ps;
  }

  /** The last two steps are `PassFromPushRecords`. */
  lemma RunFromPushRecords(st: State, userId: string, since: Timestamp, clock: SyncClock, faults: Faults)
    ensures RunPhases([PushRecords, SaveWatermark], st, userId, since, clock, faults)
      == PassFromPushRecords(st, userId, clock, faults)
  {
    var s := Step(PushRecords, st, userId, since, clock, faults);
    assert [PushRecords, SaveWatermark] == [PushRecords] + [SaveWatermark];
    RunPhasesCons(PushRecords, [SaveWatermark], st, userId, since, clock, faults);
    if s.ok {
      RunPhasesCons(SaveWatermark, [], s.state, userId, since, clock, faults);
    }
  }

  /** The last three steps are `PassFromPushItems`. */
  lemma RunFromPushItems(st: State, userId: string, since: Timestamp, clock: SyncClock, faults: Faults)
    ensures RunPhases([PushItems, PushRecords, SaveWatermark], st, userId, since, clock, faults)
      == PassFromPushItems(st, userId, clock, faults)
  {
    var s := Step(PushItems, st, userId, since, clock, faults);
    assert [PushItems, PushRecords, SaveWatermark] == [PushItems] + [PushRecords, SaveWatermark];
    RunPhasesCons(PushItems, [PushRecords, SaveWatermark], st, userId, since, clock, faults);
    if s.ok {
      RunFromPushRecords(s.state, userId, since, clock, faults);
    }
  }

  /** The last four steps are `PassFromPullRecords`. */
  lemma RunFromPullRecords(st: State, userId: string, since: Timestamp, clock: SyncClock, faults: Faults)
    ensures RunPhases([PullRecords, PushItems, PushRecords, SaveWatermark], st, userId, since, clock, faults)
      == PassFromPullRecords(st, userId, since, clock, faults)
  {
    var s := Step(PullRecords, st, userId, since, clock, faults);
    assert [PullRecords, PushItems, PushRecords, SaveWatermark] == [PullRecords] + [PushItems, PushRecords, SaveWatermark];
    RunPhasesCons(PullRecords, [PushItems, PushRecords, SaveWatermark], st, userId, since, clock, faults);
    if s.ok {
      RunFromPushItems(s.state, userId, since, clock, faults);
    }
  }

  /** The five steps of `Phases`, run one by one, are the phase-by-phase pass. */
  lemma RunComposes(st: State, userId: string, since: Timestamp, clock: SyncClock, faults: Faults)
    ensures RunPhases(Phases, st, userId, since, clock, faults) == Pass(st, userId, since, clock, faults)
  {
    var s := Step(PullItems, st, userId, since, clock, faults);
    assert Phases == [PullItems] + [PullRecords, PushItems, PushRecords, SaveWatermark];
    RunPhasesCons(PullItems, [PullRecords, PushItems, PushRecords, SaveWatermark], st, userId, since, clock, faults);
    if s.ok {
      RunFromPullRecords(s.state, userId, since, clock, faults);
    }
  }

  /** A pass that decodes its watermark does exactly what the phase-by-phase `Pass` does. */
  lemma PerformSyncComposes(st: State, userId: string, clock: SyncClock, faults: Faults)
    requires DecodeWatermark(st.lastSync.GetOr(DefaultWatermark)).Some?
    ensures PerformSync(st, userId, clock, faults)
      == Pass(st, userId, DecodeWatermark(st.lastSync.GetOr(DefaultWatermark)).value, clock, faults)
  {
    var since := DecodeWatermark(st.lastSync.GetOr(DefaultWatermark)).value;
    assert PerformSync(st, userId, clock, faults) == RunPhases(Phases, st, userId, since, clock, faults);
    RunComposes(st, userId, since, clock, faults);
  }

  /** The local tables after both pulls of a pass that met no fault. */
  function PulledDb(st: State, userId: string, since: Timestamp, clock: SyncClock): Local.Db
  {
    PullUpdatedRecords(PullUpdatedItems(st.db, st.cloud, userId, since, clock.pullItems), st.cloud, userId, since, clock.pullRecords)
  }

  /** The local tables after the item push of a pass that met no fault. */
  function ItemsPushedDb(st: State, userId: string, since: Timestamp, clock: SyncClock): Local.Db
  {
    PushUnsyncedItems(PulledDb(st, userId, since, clock), st.cloud, userId, clock.itemWrite, clock.markItems, None).db
  }

  /** A `sync` that meets no fault ends with the stores of the four phases and the save-time watermark. */
  lemma SyncWithoutFaults(st: State, userId: string, since: Timestamp, clock: SyncClock)
    requires !st.isSyncing && DecodeWatermark(st.lastSync.GetOr(DefaultWatermark)) == Some(since)
    ensures var items := PushUnsyncedItems(PulledDb(st, userId, since, clock), st.cloud, userId, clock.itemWrite, clock.markItems, None);
      var records := PushUnsyncedRecords(items.db, items.cloud, userId, clock.recordWrite, clock.markRecords, None);
      Sync(st, userId, clock, NoFaults).state
        == st.(db := records.db, cloud := records.cloud, lastSync := Some(EncodeWatermark(clock.save)))
  {
    PerformSyncComposes(st.(isSyncing := true), userId, clock, NoFaults);
  }

  /**
   * With no fault, every row of the user that is dirty after the pulls ends in the remote store
   * with its own write's clock reading; the record push leaves item documents alone.
   */
  lemma SyncUploadsDirtyItems(st: State, userId: string, since: Timestamp, clock: SyncClock)
    requires !st.isSyncing && DecodeWatermark(st.lastSync.GetOr(DefaultWatermark)) == Some(since)
    ensures var unsynced := Local.GetUnsyncedItems(PulledDb(st, userId, since, clock), userId);
      forall j :: 0 <= j < |unsynced| ==>
        Cloud.ItemDoc(Sync(st, userId, clock, NoFaults).state.cloud, userId, unsynced[j].itemId)
          == Some(unsynced[j].(lastModified := clock.itemWrite(j)))
  {
    SyncWithoutFaults(st, userId, since, clock);
    PushItemsUploads(PulledDb(st, userId, since, clock), st.cloud, userId, clock.itemWrite, clock.markItems, None);
  }

  /**
   * With no fault, a live item of the user that is dirty after the pulls ends synced, unless one
   * of the pushed records names it.
   */
  lemma SyncMarksPushedItems(st: State, userId: string, since: Timestamp, clock: SyncClock, k: string)
    requires !st.isSyncing && DecodeWatermark(st.lastSync.GetOr(DefaultWatermark)) == Some(since)
    requires var pulled := PulledDb(st, userId, since, clock);
      DirtyItem(pulled.items, userId, k) && !pulled.items[k].isDeleted
    requires var pushed := ItemsPushedDb(st, userId, since, clock);
      !Local.AnyTouches(pushed.records, Local.GetUnsyncedRecords(pushed, userId), k)
    ensures ItemDao.GetItemById(Sync(st, userId, clock, NoFaults).state.db.items, k)
      == Some(PulledDb(st, userId, since, clock).items[k].(isSynced := true))
  {
    var pulled := PulledDb(st, userId, since, clock);
    var items := PushUnsyncedItems(pulled, st.cloud, userId, clock.itemWrite, clock.markItems, None);
    SyncWithoutFaults(st, userId, since, clock);
    PushItemsMarks(pulled, st.cloud, userId, clock.itemWrite, clock.markItems, None);
    assert ItemDao.GetItemById(items.db.items, k) == MarkedItemRow(pulled.items, userId, k, clock.markItems);
    PushRecordsItemEffect(items.db, items.cloud, userId, clock.recordWrite, clock.markRecords, None);
  }

  /**
   * With no fault, an item that a pushed record names ends dirty: `upsertRecord` stamps the
   * owning item, so the next pass uploads that item again.
   */
  lemma SyncRedirtiesRecordOwners(st: State, userId: string, since: Timestamp, clock: SyncClock, k: string)
    requires !st.isSyncing && DecodeWatermark(st.lastSync.GetOr(DefaultWatermark)) == Some(since)
    requires var pushed := ItemsPushedDb(st, userId, since, clock);
      k in pushed.items && Local.AnyTouches(pushed.records, Local.GetUnsyncedRecords(pushed, userId), k)
    ensures k in Sync(st, userId, clock, NoFaults).state.db.items
    ensures !Sync(st, userId, clock, NoFaults).state.db.items[k].isSynced
  {
    var pulled := PulledDb(st, userId, since, clock);
    var items := PushUnsyncedItems(pulled, st.cloud, userId, clock.itemWrite, clock.markItems, None);
    SyncWithoutFaults(st, userId, since, clock);
    PushRecordsItemEffect(items.db, items.cloud, userId, clock.recordWrite, clock.markRecords, None);
  }

  /** On the first run, with no watermark stored, a pass that meets no fault takes every step and stores the save-time watermark. */
  lemma FirstSyncPullsFromEpoch(st: State, userId: string, clock: SyncClock)
    requires st.lastSync.None? && !st.isSyncing
    ensures Sync(st, userId, clock, NoFaults).completed == Phases
    ensures Sync(st, userId, clock, NoFaults).state.lastSync == Some(EncodeWatermark(clock.save))
  {
    MissingWatermarkIsEpoch();
  }
}

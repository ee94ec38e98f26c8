/**
 * `LocalRepository` (data/repository/LocalRepository.kt): the only writer of local entities.
 * Each operation is a pure transition of the local database. `Timestamp.now()` is the `now`
 * parameter (one reading per call) and Firestore's id generator is the `newId` parameter.
 */
module LocalRepository {
  import opened Common
  import opened Time
  import opened Entities
  import ItemDao
  import RecordDao

  /** The two Room tables. */
  datatype Db = Db(items: ItemDao.ItemTable, records: RecordDao.RecordTable)

  /** A write stamped by `modify` at `now`, as read back from the table. */
  function StampOf(now: Timestamp): Timestamp
  {
    Timestamp(now.seconds, 0)
  }

  /** `ClockInItem.modify(...)`: the named fields, plus a fresh `lastModified` and a dirty flag. */
  function ModifyItem(it: Item, name: string, description: Option<string>, clockInCount: int, isDeleted: bool, now: Timestamp): (r: Item)
    ensures r.itemId == it.itemId && r.userId == it.userId
    ensures r.name == name && r.description == description
    ensures r.clockInCount == clockInCount && r.isDeleted == isDeleted
    ensures r.lastModified == now && !r.isSynced
  {
    it.(name := name, description := description, clockInCount := clockInCount, isDeleted := isDeleted,
        lastModified := now, isSynced := false)
  }

  /** `ClockInRecord.modify(isDeleted)`. */
  function ModifyRecord(rec: Record, isDeleted: bool, now: Timestamp): (r: Record)
    ensures r.recordId == rec.recordId && r.userId == rec.userId && r.itemId == rec.itemId
    ensures r.timestamp == rec.timestamp
    ensures r.isDeleted == isDeleted
    ensures r.lastModified == now && !r.isSynced
  {
    rec.(isDeleted := isDeleted, lastModified := now, isSynced := false)
  }

  /** `after` is `before` with every listed field unchanged, stamped at `now` and dirty. */
  predicate ItemStamped(before: Item, after: Item, now: Timestamp)
  {
    && after.itemId == before.itemId && after.userId == before.userId
    && after.name == before.name && after.description == before.description
    && after.lastModified == StampOf(now) && !after.isSynced
  }

  /** `after` is the tombstone `deleteItem` makes of `before`: count, name and description kept. */
  predicate ItemTombstoneOf(before: Item, after: Item, now: Timestamp)
  {
    ItemStamped(before, after, now) && after.isDeleted && after.clockInCount == before.clockInCount
  }

  /** `after` is the tombstone `deleteRecord` makes of `before`: owner and clock-in time kept. */
  predicate RecordTombstoneOf(before: Record, after: Record, now: Timestamp)
  {
    && after.recordId == before.recordId && after.userId == before.userId && after.itemId == before.itemId
    && after.timestamp == before.timestamp
    && after.isDeleted && after.lastModified == StampOf(now) && !after.isSynced
  }

  /** Every item row other than `id` is unchanged, and no item row appears or disappears. */
  predicate ItemsFramed(a: ItemDao.ItemTable, b: ItemDao.ItemTable, id: string)
  {
    a.Keys == b.Keys && forall k :: k in a && k != id ==> b[k] == a[k]
  }

  /** Every record row other than `id` is unchanged, and no record row appears or disappears. */
  predicate RecordsFramed(a: RecordDao.RecordTable, b: RecordDao.RecordTable, id: string)
  {
    a.Keys == b.Keys && forall k :: k in a && k != id ==> b[k] == a[k]
  }

  /** `insertOrUpdateItem`: the item DAO's replace-or-add. */
  function WriteItem(db: Db, item: Item): (r: Db)
    ensures r.records == db.records
    ensures r.items == ItemDao.InsertOrUpdate(db.items, item)
  {
    db.(items := ItemDao.InsertOrUpdate(db.items, item))
  }

  /** `insertItem`: one new clean-slate row under the generated id, returned as built (not as stored). */
  function InsertItem(db: Db, newId: string, userId: string, name: string, description: Option<string>, now: Timestamp): (r: (Db, Item))
    ensures r.1.itemId == newId && r.1.userId == userId && r.1.name == name && r.1.description == description
    ensures r.1.clockInCount == 0 && !r.1.isSynced && !r.1.isDeleted && r.1.lastModified == now
    ensures r.0.items.Keys == db.items.Keys + {newId}
    ensures r.0.items[newId] == StoreItem(r.1)
    ensures forall k :: k in db.items && k != newId ==> r.0.items[k] == db.items[k]
    ensures r.0.records == db.records
  {
    var item := NewItem(newId, userId, name, description, now);
    (WriteItem(db, item), item)
  }

  /**
   * `deleteItem`: a no-op for an unknown id; otherwise the row becomes a tombstone through
   * `modify` and every record of the item's user and id is removed physically.
   */
  function DeleteItem(db: Db, itemId: string, now: Timestamp): (r: Db)
    ensures itemId !in db.items ==> r == db
    ensures itemId in db.items ==> ItemsFramed(db.items, r.items, itemId)
    ensures itemId in db.items ==> ItemTombstoneOf(db.items[itemId], r.items[itemId], now)
    ensures itemId in db.items ==> forall k :: k in r.records <==>
      k in db.records && !RecordDao.Matches(db.records[k], db.items[itemId].userId, itemId)
    ensures forall k :: k in r.records ==> k in db.records && r.records[k] == db.records[k]
  {
    match ItemDao.GetItemById(db.items, itemId)
    case None => db
    case Some(it) =>
      var db1 := WriteItem(db, ModifyItem(it, it.name, it.description, it.clockInCount, true, now));
      db1.(records := RecordDao.DeleteRecordsByItem(db1.records, it.userId, itemId))
  }

  /** `incrementClockInCount`: +1 through `modify`, no ceiling, tombstones included. */
  function IncrementClockInCount(db: Db, itemId: string, now: Timestamp): (r: Db)
    ensures itemId !in db.items ==> r == db
    ensures r.records == db.records
    ensures itemId in db.items ==> ItemsFramed(db.items, r.items, itemId)
    ensures itemId in db.items ==> ItemStamped(db.items[itemId], r.items[itemId], now)
    ensures itemId in db.items ==> r.items[itemId].clockInCount == db.items[itemId].clockInCount + 1
    ensures itemId in db.items ==> r.items[itemId].isDeleted == db.items[itemId].isDeleted
  {
    match ItemDao.GetItemById(db.items, itemId)
    case None => db
    case Some(it) => WriteItem(db, ModifyItem(it, it.name, it.description, it.clockInCount + 1, it.isDeleted, now))
  }

  /** `decrementClockInCount`: -1 through `modify`, with no floor at zero. */
  function DecrementClockInCount(db: Db, itemId: string, now: Timestamp): (r: Db)
    ensures itemId !in db.items ==> r == db
    ensures r.records == db.records
    ensures itemId in db.items ==> ItemsFramed(db.items, r.items, itemId)
    ensures itemId in db.items ==> ItemStamped(db.items[itemId], r.items[itemId], now)
    ensures itemId in db.items ==> r.items[itemId].clockInCount == db.items[itemId].clockInCount - 1
    ensures itemId in db.items ==> r.items[itemId].isDeleted == db.items[itemId].isDeleted
  {
    match ItemDao.GetItemById(db.items, itemId)
    case None => db
    case Some(it) => WriteItem(db, ModifyItem(it, it.name, it.description, it.clockInCount - 1, it.isDeleted, now))
  }

  /** A count of zero goes negative: nothing guards the decrement. */
  lemma DecrementBelowZero(db: Db, itemId: string, now: Timestamp)
    requires itemId in db.items && db.items[itemId].clockInCount == 0
    ensures DecrementClockInCount(db, itemId, now).items[itemId].clockInCount == -1
  {
  }

  function GetUnsyncedItems(db: Db, userId: string): (r: seq<Item>)
    ensures ItemDao.RowsOf(db.items, r) && ItemDao.DistinctIds(r)
    ensures forall i :: 0 <= i < |r| ==> r[i].userId == userId && !r[i].isSynced
    ensures forall k :: k in db.items && db.items[k].userId == userId && !db.items[k].isSynced ==> db.items[k] in r
  {
    ItemDao.AscendingIdsAreDistinct(ItemDao.GetUnsyncedItems(db.items, userId));
    ItemDao.GetUnsyncedItems(db.items, userId)
  }

  /** Last-write-wins test of the merge: no local row, or the local row is not newer. */
  predicate AcceptsItem(items: ItemDao.ItemTable, incoming: Item)
  {
    incoming.itemId !in items || Le(items[incoming.itemId].lastModified, incoming.lastModified)
  }

  /**
   * `upsertItem`: an incoming tombstone deletes the local row whatever the timestamps;
   * otherwise the incoming row replaces the local one, marked synced, when the local row is
   * absent or not newer, and the store is left alone when the local row is newer.
   */
  function UpsertItem(db: Db, item: Item, now: Timestamp): (r: Db)
    ensures item.isDeleted && item.itemId !in db.items ==> r == db
    ensures item.isDeleted && item.itemId in db.items ==> ItemsFramed(db.items, r.items, item.itemId)
    ensures item.isDeleted && item.itemId in db.items ==>
      ItemTombstoneOf(db.items[item.itemId], r.items[item.itemId], now)
    ensures !item.isDeleted && AcceptsItem(db.items, item) ==>
      r.records == db.records && r.items == ItemDao.InsertOrUpdate(db.items, item.(isSynced := true))
    ensures !item.isDeleted && !AcceptsItem(db.items, item) ==> r == db
    ensures item.isDeleted ==> r == DeleteItem(db, item.itemId, now)
  {
    if item.isDeleted then DeleteItem(db, item.itemId, now)
    else
      match ItemDao.GetItemById(db.items, item.itemId)
      case None => WriteItem(db, item.(isSynced := true))
      case Some(local) =>
        if Le(local.lastModified, item.lastModified) then WriteItem(db, item.(isSynced := true))
        else db
  }

  /** `upsertItems` (called, not shown): `upsertItem` on each element, left to right. */
  function UpsertItems(db: Db, items: seq<Item>, now: Timestamp): (r: Db)
    ensures items == [] ==> r == db
    decreases |items|
  {
    if items == [] then db
    else UpsertItems(UpsertItem(db, items[0], now), items[1..], now)
  }

  /**
   * The merge rule on one row, on its own: what the local row for the incoming id becomes.
   * An independent statement of `upsertItem`, used to reason about batches.
   */
  function MergeItemRow(local: Option<Item>, incoming: Item, now: Timestamp): Option<Item>
  {
    if incoming.isDeleted then
      match local
      case None => None
      case Some(l) => Some(StoreItem(l.(isDeleted := true, lastModified := now, isSynced := false)))
    else if local.None? || Le(local.value.lastModified, incoming.lastModified) then
      Some(StoreItem(incoming.(isSynced := true)))
    else local
  }

  /** `upsertItem` changes only the row of the incoming id, and that row as `MergeItemRow` says. */
  lemma UpsertItemIsRowMerge(db: Db, item: Item, now: Timestamp)
    ensures ItemDao.GetItemById(UpsertItem(db, item, now).items, item.itemId)
      == MergeItemRow(ItemDao.GetItemById(db.items, item.itemId), item, now)
    ensures forall k :: k != item.itemId ==>
      ItemDao.GetItemById(UpsertItem(db, item, now).items, k) == ItemDao.GetItemById(db.items, k)
  {
    var r := UpsertItem(db, item, now);
    if item.isDeleted && item.itemId in db.items {
      var l := db.items[item.itemId];
      assert r.items[item.itemId] == StoreItem(l.(isDeleted := true, lastModified := now, isSynced := false));
    }
  }

  /** A batch of distinct ids merges row by row: each row as if merged alone, other rows untouched. */
  lemma {:induction false} UpsertItemsRowwise(db: Db, items: seq<Item>, now: Timestamp)
    requires ItemDao.DistinctIds(items)
    ensures forall i :: 0 <= i < |items| ==>
      ItemDao.GetItemById(UpsertItems(db, items, now).items, items[i].itemId)
        == MergeItemRow(ItemDao.GetItemById(db.items, items[i].itemId), items[i], now)
    ensures forall k :: (forall i :: 0 <= i < |items| ==> items[i].itemId != k) ==>
      ItemDao.GetItemById(UpsertItems(db, items, now).items, k) == ItemDao.GetItemById(db.items, k)
    decreases |items|
  {
    if items != [] {
      var db1 := UpsertItem(db, items[0], now);
      UpsertItemIsRowMerge(db, items[0], now);
      var rest := items[1..];
      assert ItemDao.DistinctIds(rest) by {
        forall i, j | 0 <= i < |rest| && 0 <= j < |rest| && i != j
          ensures rest[i].itemId != rest[j].itemId
        {
          assert rest[i] == items[i + 1] && rest[j] == items[j + 1];
        }
      }
      UpsertItemsRowwise(db1, rest, now);
      assert UpsertItems(db, items, now) == UpsertItems(db1, rest, now);
      forall i | 0 <= i < |items|
        ensures ItemDao.GetItemById(UpsertItems(db, items, now).items, items[i].itemId)
          == MergeItemRow(ItemDao.GetItemById(db.items, items[i].itemId), items[i], now)
      {
        if i == 0 {
          assert forall j :: 0 <= j < |rest| ==> rest[j] == items[j + 1] && rest[j].itemId != items[0].itemId;
        } else {
          assert rest[i - 1] == items[i];
        }
      }
      forall k | forall i :: 0 <= i < |items| ==> items[i].itemId != k
        ensures ItemDao.GetItemById(UpsertItems(db, items, now).items, k) == ItemDao.GetItemById(db.items, k)
      {
        assert items[0].itemId != k;
        assert forall j :: 0 <= j < |rest| ==> rest[j] == items[j + 1];
      }
    }
  }

  /**
   * A record row that an item batch deletes: one of a stored item that the batch tombstones,
   * under the stored item's user (`deleteItem` reads the user from the local row).
   */
  predicate PurgedBy(items: ItemDao.ItemTable, batch: seq<Item>, rec: Record)
  {
    exists i :: 0 <= i < |batch| && batch[i].isDeleted && batch[i].itemId in items
      && RecordDao.Matches(rec, items[batch[i].itemId].userId, batch[i].itemId)
  }

  /**
   * The record side of a batch of distinct item ids: exactly the records of the items the
   * batch tombstones are removed physically, and no other record row changes.
   */
  lemma {:induction false} UpsertItemsPurgesRecords(db: Db, items: seq<Item>, now: Timestamp)
    requires ItemDao.DistinctIds(items)
    ensures forall k :: k in UpsertItems(db, items, now).records <==>
      k in db.records && !PurgedBy(db.items, items, db.records[k])
    ensures forall k :: k in UpsertItems(db, items, now).records ==>
      UpsertItems(db, items, now).records[k] == db.records[k]
    decreases |items|
  {
    if items != [] {
      var id0 := items[0].itemId;
      var db1 := UpsertItem(db, items[0], now);
      UpsertItemIsRowMerge(db, items[0], now);
      var rest := items[1..];
      ItemDao.DistinctTail(items);
      UpsertItemsPurgesRecords(db1, rest, now);
      assert UpsertItems(db, items, now) == UpsertItems(db1, rest, now);
      var first := items[0].isDeleted && id0 in db.items;
      assert forall k :: k in db1.records <==>
        k in db.records && !(first && RecordDao.Matches(db.records[k], db.items[id0].userId, id0));
      assert forall k :: k in db1.records ==> db1.records[k] == db.records[k];
      forall x: Record
        ensures PurgedBy(db.items, items, x) <==>
          (first && RecordDao.Matches(x, db.items[id0].userId, id0)) || PurgedBy(db1.items, rest, x)
      {
        PurgedByStep(db, items, now, x);
      }
    }
  }

  /** A record is purged by a batch when the first item removes its owner or the rest of the batch does. */
  lemma PurgedByStep(db: Db, items: seq<Item>, now: Timestamp, x: Record)
    requires ItemDao.DistinctIds(items) && items != []
    ensures PurgedBy(db.items, items, x) <==>
      (items[0].isDeleted && items[0].itemId in db.items
        && RecordDao.Matches(x, db.items[items[0].itemId].userId, items[0].itemId))
      || PurgedBy(UpsertItem(db, items[0], now).items, items[1..], x)
  {
    var id0 := items[0].itemId;
    var db1 := UpsertItem(db, items[0], now);
    var rest := items[1..];
    UpsertItemIsRowMerge(db, items[0], now);
    ItemDao.DistinctTail(items);
    if PurgedBy(db1.items, rest, x) {
      var j :| 0 <= j < |rest| && rest[j].isDeleted && rest[j].itemId in db1.items
        && RecordDao.Matches(x, db1.items[rest[j].itemId].userId, rest[j].itemId);
      assert rest[j] == items[j + 1] && items[j + 1].itemId != id0;
      assert ItemDao.GetItemById(db1.items, rest[j].itemId) == ItemDao.GetItemById(db.items, rest[j].itemId);
    }
    if PurgedBy(db.items, items, x) {
      var i :| 0 <= i < |items| && items[i].isDeleted && items[i].itemId in db.items
        && RecordDao.Matches(x, db.items[items[i].itemId].userId, items[i].itemId);
      if i > 0 {
        assert rest[i - 1] == items[i] && items[i].itemId != id0;
        assert ItemDao.GetItemById(db1.items, items[i].itemId) == ItemDao.GetItemById(db.items, items[i].itemId);
      }
    }
  }

  /** Deleting an item twice is deleting it once at the second clock reading. */
  lemma DeleteItemTwice(db: Db, itemId: string, n1: Timestamp, n2: Timestamp)
    ensures DeleteItem(DeleteItem(db, itemId, n1), itemId, n2) == DeleteItem(db, itemId, n2)
  {
    if itemId in db.items {
      var once := DeleteItem(db, itemId, n1);
      var twice := DeleteItem(once, itemId, n2);
      var direct := DeleteItem(db, itemId, n2);
      assert once.items[itemId].userId == db.items[itemId].userId;
      assert twice.items[itemId] == direct.items[itemId];
      assert twice.items == direct.items;
      assert twice.records == direct.records;
    }
  }

  /**
   * Applying the same incoming item twice, at clock readings `n1` then `n2`. A live item
   * leaves the store as the first application did, whatever the clocks. A tombstone is
   * deleted again, so the result is the single application at the later reading: the local
   * tombstone is re-stamped at `n2`.
   */
  lemma UpsertItemIdempotent(db: Db, item: Item, n1: Timestamp, n2: Timestamp)
    ensures !item.isDeleted ==> UpsertItem(UpsertItem(db, item, n1), item, n2) == UpsertItem(db, item, n1)
    ensures item.isDeleted ==> UpsertItem(UpsertItem(db, item, n1), item, n2) == UpsertItem(db, item, n2)
    ensures item.isDeleted && item.itemId in db.items ==>
      UpsertItem(UpsertItem(db, item, n1), item, n2).items[item.itemId].lastModified == StampOf(n2)
  {
    var once := UpsertItem(db, item, n1);
    if item.isDeleted {
      DeleteItemTwice(db, item.itemId, n1, n2);
    } else if AcceptsItem(db.items, item) {
      assert once.items[item.itemId].lastModified == StampOf(item.lastModified);
    }
  }

  /** A newer non-deleted version revives a local tombstone. */
  lemma UpsertResurrectsTombstone(db: Db, item: Item, now: Timestamp)
    requires item.itemId in db.items && db.items[item.itemId].isDeleted
    requires !item.isDeleted && Le(db.items[item.itemId].lastModified, item.lastModified)
    ensures !UpsertItem(db, item, now).items[item.itemId].isDeleted
    ensures UpsertItem(db, item, now).items[item.itemId].isSynced
  {
  }

  /** An incoming tombstone wins even when it is older than the local row. */
  lemma TombstoneBeatsNewerLocal(db: Db, item: Item, now: Timestamp)
    requires item.itemId in db.items && !db.items[item.itemId].isDeleted
    requires item.isDeleted && Lt(item.lastModified, db.items[item.itemId].lastModified)
    ensures UpsertItem(db, item, now).items[item.itemId].isDeleted
    ensures !UpsertItem(db, item, now).items[item.itemId].isSynced
  {
  }

  /**
   * A stale non-deleted snapshot taken in an earlier second than a local delete leaves the
   * tombstone in place.
   */
  lemma StaleSnapshotKeepsTombstone(db: Db, stale: Item, tDelete: Timestamp, tMerge: Timestamp)
    requires stale.itemId in db.items && !stale.isDeleted
    requires stale.lastModified.seconds < tDelete.seconds
    ensures UpsertItem(DeleteItem(db, stale.itemId, tDelete), stale, tMerge).items[stale.itemId].isDeleted
  {
  }

  /**
   * Storage keeps only whole seconds, so a stale snapshot from the same second as the local
   * delete passes the `<=` test and resurrects the item.
   */
  lemma SameSecondSnapshotResurrects(db: Db, stale: Item, tDelete: Timestamp, tMerge: Timestamp)
    requires stale.itemId in db.items && !stale.isDeleted
    requires stale.lastModified.seconds == tDelete.seconds && Lt(stale.lastModified, tDelete)
    ensures !UpsertItem(DeleteItem(db, stale.itemId, tDelete), stale, tMerge).items[stale.itemId].isDeleted
  {
  }

  /** Two non-deleted versions of one id: the merged row after merging `first` then `second`. */
  function MergeBoth(db: Db, first: Item, second: Item, now: Timestamp): Item
    requires first.itemId == second.itemId
    requires !first.isDeleted && !second.isDeleted
  {
    var db1 := UpsertItem(db, first, now);
    assert AcceptsItem(db1.items, first) || !AcceptsItem(db1.items, first);
    UpsertItem(db1, second, now).items[second.itemId]
  }

  /** Last write wins in either merge order when the versions lie in different seconds. */
  lemma LastWriteWinsAcrossSeconds(db: Db, older: Item, newer: Item, now: Timestamp)
    requires older.itemId == newer.itemId && !older.isDeleted && !newer.isDeleted
    requires older.lastModified.seconds < newer.lastModified.seconds
    requires AcceptsItem(db.items, older)
    ensures MergeBoth(db, older, newer, now) == StoreItem(newer.(isSynced := true))
    ensures MergeBoth(db, newer, older, now) == StoreItem(newer.(isSynced := true))
  {
  }

  /** Within one second the later merge wins even when it is the older version. */
  lemma LastWriteLosesWithinSecond(db: Db, older: Item, newer: Item, now: Timestamp)
    requires older.itemId == newer.itemId && !older.isDeleted && !newer.isDeleted
    requires older.lastModified.seconds == newer.lastModified.seconds
    requires AcceptsItem(db.items, newer)
    ensures MergeBoth(db, newer, older, now) == StoreItem(older.(isSynced := true))
  {
  }

  /** Record `k` belongs to the item and was clocked in within `[start, end)` on the millisecond grid. */
  predicate ClockedInWithin(t: RecordDao.RecordTable, k: string, userId: string, itemId: string, start: int, end: int)
  {
    k in t && RecordDao.Matches(t[k], userId, itemId) && start <= RecordDao.TimeKey(t[k]) < end
  }

  /** `hasClockInOnDay`: the day's bounds are given in epoch millis; the query's end is `startOfNextDay - 1`. */
  function HasClockInOnDay(db: Db, userId: string, itemId: string, startOfDay: int, startOfNextDay: int): (r: bool)
    ensures r <==> exists k :: ClockedInWithin(db.records, k, userId, itemId, startOfDay, startOfNextDay)
  {
    InclusiveEndIsHalfOpen(db.records, userId, itemId, startOfDay, startOfNextDay);
    RecordDao.HasRecordInRange(db.records, userId, itemId, startOfDay, startOfNextDay - 1)
  }

  /** On whole milliseconds, `BETWEEN start AND next - 1` is the half-open day `[start, next)`. */
  lemma InclusiveEndIsHalfOpen(t: RecordDao.RecordTable, userId: string, itemId: string, start: int, next: int)
    ensures RecordDao.HasRecordInRange(t, userId, itemId, start, next - 1)
      <==> exists k :: ClockedInWithin(t, k, userId, itemId, start, next)
  {
    if RecordDao.HasRecordInRange(t, userId, itemId, start, next - 1) {
      var k :| k in t && RecordDao.Matches(t[k], userId, itemId) && start <= RecordDao.TimeKey(t[k]) <= next - 1;
      assert ClockedInWithin(t, k, userId, itemId, start, next);
    }
    if exists k :: ClockedInWithin(t, k, userId, itemId, start, next) {
      var k :| ClockedInWithin(t, k, userId, itemId, start, next);
      assert k in t && RecordDao.Matches(t[k], userId, itemId) && start <= RecordDao.TimeKey(t[k]) <= next - 1;
    }
  }

  /** A tombstoned clock-in still counts for its day. */
  lemma TombstoneCountsForDay(db: Db, k: string, startOfDay: int, startOfNextDay: int)
    requires k in db.records && db.records[k].isDeleted
    requires startOfDay <= RecordDao.TimeKey(db.records[k]) < startOfNextDay
    ensures HasClockInOnDay(db, db.records[k].userId, db.records[k].itemId, startOfDay, startOfNextDay)
  {
  }

  /**
   * `insertOrUpdateRecord`, with the call at line 130 read as the record DAO's write: the
   * owning item is incremented first when a record with the same id already exists.
   */
  function InsertOrUpdateRecord(db: Db, rec: Record, now: Timestamp): (r: Db)
    ensures r.records == RecordDao.InsertOrUpdate(db.records, rec)
    ensures r.items.Keys == db.items.Keys
    ensures rec.recordId !in db.records ==> r.items == db.items
    ensures rec.recordId in db.records ==> r.items == IncrementClockInCount(db, rec.itemId, now).items
  {
    var db1 := if RecordDao.GetRecordById(db.records, rec.recordId) != None
      then IncrementClockInCount(db, rec.itemId, now) else db;
    db1.(records := RecordDao.InsertOrUpdate(db1.records, rec))
  }

  /**
   * What a call leaves behind after some number of nested calls: it returned, or it is still
   * inside its own nested call. The as-written `insertOrUpdateRecord` calls itself with no base
   * case, and each level first awaits a Room query, so it never completes.
   */
  datatype CallOutcome = Returned(db: Db) | StillRunning(db: Db)

  /** The as-written `insertOrUpdateRecord`, followed through `depth` nested calls. */
  function InsertOrUpdateRecordAsWritten(db: Db, rec: Record, now: Timestamp, depth: nat): CallOutcome
    decreases depth
  {
    if depth == 0 then StillRunning(db)
    else
      var db1 := if RecordDao.GetRecordById(db.records, rec.recordId) != None
        then IncrementClockInCount(db, rec.itemId, now) else db;
      InsertOrUpdateRecordAsWritten(db1, rec, now, depth - 1)
  }

  /**
   * However many nested calls are followed, the as-written call has not returned and has not
   * written the record. For a record that exists, it has bumped its item's count once per level.
   */
  lemma {:induction false} AsWrittenNeverReturns(db: Db, rec: Record, now: Timestamp, depth: nat)
    ensures InsertOrUpdateRecordAsWritten(db, rec, now, depth).StillRunning?
    ensures InsertOrUpdateRecordAsWritten(db, rec, now, depth).db.records == db.records
    ensures InsertOrUpdateRecordAsWritten(db, rec, now, depth).db.items.Keys == db.items.Keys
    ensures rec.recordId in db.records && rec.itemId in db.items ==>
      InsertOrUpdateRecordAsWritten(db, rec, now, depth).db.items[rec.itemId].clockInCount
        == db.items[rec.itemId].clockInCount + depth
    decreases depth
  {
    if depth > 0 {
      var db1 := if RecordDao.GetRecordById(db.records, rec.recordId) != None
        then IncrementClockInCount(db, rec.itemId, now) else db;
      AsWrittenNeverReturns(db1, rec, now, depth - 1);
    }
  }

  /**
   * `insertRecord`: one record with a generated id, clocked at `now`. Because of the `!= null`
   * guard a fresh id leaves every item, and so every `clockInCount`, unchanged.
   */
  function InsertRecord(db: Db, newId: string, userId: string, itemId: string, now: Timestamp): (r: (Db, Record))
    ensures r.1.recordId == newId && r.1.userId == userId && r.1.itemId == itemId
    ensures r.1.timestamp == now && r.1.lastModified == now && !r.1.isSynced && !r.1.isDeleted
    ensures r.0.records.Keys == db.records.Keys + {newId}
    ensures r.0.records[newId] == StoreRecord(r.1)
    ensures forall k :: k in db.records && k != newId ==> r.0.records[k] == db.records[k]
    ensures newId !in db.records ==> r.0.items == db.items
  {
    var rec := NewRecord(newId, userId, itemId, now);
    (InsertOrUpdateRecord(db, rec, now), rec)
  }

  /**
   * `deleteRecord`: a no-op for an unknown id; otherwise the record becomes a tombstone and
   * its item is incremented (the guard sees the existing row) then decremented, for a net
   * count change of zero.
   */
  function DeleteRecord(db: Db, recordId: string, now: Timestamp): (r: Db)
    ensures recordId !in db.records ==> r == db
    ensures r.items.Keys == db.items.Keys
    ensures recordId in db.records ==> RecordsFramed(db.records, r.records, recordId)
    ensures recordId in db.records ==> RecordTombstoneOf(db.records[recordId], r.records[recordId], now)
    ensures recordId in db.records && db.records[recordId].itemId !in db.items ==> r.items == db.items
    ensures recordId in db.records && db.records[recordId].itemId in db.items ==>
      var id := db.records[recordId].itemId;
      && ItemsFramed(db.items, r.items, id)
      && ItemStamped(db.items[id], r.items[id], now)
      && r.items[id].clockInCount == db.items[id].clockInCount
      && r.items[id].isDeleted == db.items[id].isDeleted
  {
    match RecordDao.GetRecordById(db.records, recordId)
    case None => db
    case Some(rec) =>
      var db1 := InsertOrUpdateRecord(db, ModifyRecord(rec, true, now), now);
      DecrementClockInCount(db1, rec.itemId, now)
  }

  /** `getMostRecentRecord` then `deleteRecord` of its id. */
  function DeleteMostRecentRecord(db: Db, userId: string, itemId: string, now: Timestamp): (r: Db)
    ensures RecordDao.GetMostRecentRecord(db.records, userId, itemId).None? ==> r == db
    ensures var target := RecordDao.GetMostRecentRecord(db.records, userId, itemId);
      target.Some? ==> r == DeleteRecord(db, target.value.recordId, now)
  {
    match RecordDao.GetMostRecentRecord(db.records, userId, itemId)
    case None => db
    case Some(rec) =>
      var db1 := InsertOrUpdateRecord(db, ModifyRecord(rec, true, now), now);
      DecrementClockInCount(db1, rec.itemId, now)
  }

  /** The record strictly newer than every other record of the item, if there is one. */
  predicate IsStrictlyNewest(t: RecordDao.RecordTable, k: string, userId: string, itemId: string)
  {
    && k in t && RecordDao.Matches(t[k], userId, itemId)
    && forall j :: j in t && j != k && RecordDao.Matches(t[j], userId, itemId) ==>
      RecordDao.TimeKey(t[j]) < RecordDao.TimeKey(t[k])
  }

  /** A strictly newest record is the one `getMostRecentRecord` returns. */
  lemma StrictlyNewestIsMostRecent(t: RecordDao.RecordTable, k: string, userId: string, itemId: string)
    requires IsStrictlyNewest(t, k, userId, itemId)
    ensures RecordDao.GetMostRecentRecord(t, userId, itemId) == Some(t[k])
  {
    var found := RecordDao.GetMostRecentRecord(t, userId, itemId);
    assert found.Some?;
    if found.value.recordId != k {
      assert false;
    }
  }

  /**
   * Tombstones stay visible to `getMostRecentRecord`, so a second withdraw targets the record
   * the first one already deleted.
   */
  lemma WithdrawTwiceRetargets(db: Db, userId: string, itemId: string, k: string, now: Timestamp)
    requires IsStrictlyNewest(db.records, k, userId, itemId)
    ensures RecordDao.GetMostRecentRecord(db.records, userId, itemId) == Some(db.records[k])
    ensures var after := DeleteMostRecentRecord(db, userId, itemId, now);
      && RecordDao.GetMostRecentRecord(after.records, userId, itemId) == Some(after.records[k])
      && after.records[k].isDeleted
  {
    StrictlyNewestIsMostRecent(db.records, k, userId, itemId);
    var after := DeleteMostRecentRecord(db, userId, itemId, now);
    assert after == DeleteRecord(db, k, now);
    assert RecordsFramed(db.records, after.records, k);
    assert RecordTombstoneOf(db.records[k], after.records[k], now);
    assert RecordDao.TimeKey(after.records[k]) == RecordDao.TimeKey(db.records[k]);
    StrictlyNewestIsMostRecent(after.records, k, userId, itemId);
  }

  function GetUnsyncedRecords(db: Db, userId: string): (r: seq<Record>)
    ensures RecordDao.RowsOf(db.records, r) && RecordDao.DistinctIds(r)
    ensures forall i :: 0 <= i < |r| ==> r[i].userId == userId && !r[i].isSynced
    ensures forall k :: k in db.records && db.records[k].userId == userId && !db.records[k].isSynced ==> db.records[k] in r
  {
    RecordDao.AscendingIdsAreDistinct(RecordDao.GetUnsyncedRecords(db.records, userId));
    RecordDao.GetUnsyncedRecords(db.records, userId)
  }

  /** Last-write-wins test for records. */
  predicate AcceptsRecord(records: RecordDao.RecordTable, incoming: Record)
  {
    incoming.recordId !in records || Le(records[incoming.recordId].lastModified, incoming.lastModified)
  }

  /**
   * `upsertRecord`: tombstone first, whatever the timestamps; otherwise last-write-wins.
   * An accepted update of an existing record goes through `insertOrUpdateRecord` and so also
   * increments the owning item's count.
   */
  function UpsertRecord(db: Db, rec: Record, now: Timestamp): (r: Db)
    ensures rec.isDeleted && rec.recordId !in db.records ==> r == db
    ensures r.items.Keys == db.items.Keys
    ensures rec.isDeleted && rec.recordId in db.records ==>
      RecordsFramed(db.records, r.records, rec.recordId)
      && RecordTombstoneOf(db.records[rec.recordId], r.records[rec.recordId], now)
    ensures !rec.isDeleted && AcceptsRecord(db.records, rec) ==>
      r.records == RecordDao.InsertOrUpdate(db.records, rec.(isSynced := true))
    ensures !rec.isDeleted && rec.recordId !in db.records ==> r.items == db.items
    ensures !rec.isDeleted && rec.recordId in db.records && AcceptsRecord(db.records, rec) && rec.itemId in db.items ==>
      r.items[rec.itemId].clockInCount == db.items[rec.itemId].clockInCount + 1
    ensures !rec.isDeleted && !AcceptsRecord(db.records, rec) ==> r == db
    ensures rec.isDeleted ==> r == DeleteRecord(db, rec.recordId, now)
    ensures !rec.isDeleted && AcceptsRecord(db.records, rec) ==> r == InsertOrUpdateRecord(db, rec.(isSynced := true), now)
  {
    if rec.isDeleted then DeleteRecord(db, rec.recordId, now)
    else
      match RecordDao.GetRecordById(db.records, rec.recordId)
      case None => InsertOrUpdateRecord(db, rec.(isSynced := true), now)
      case Some(local) =>
        if Le(local.lastModified, rec.lastModified) then InsertOrUpdateRecord(db, rec.(isSynced := true), now)
        else db
  }

  /** `upsertRecords` (called, not shown): `upsertRecord` on each element, left to right. */
  function UpsertRecords(db: Db, records: seq<Record>, now: Timestamp): (r: Db)
    ensures records == [] ==> r == db
    ensures r.items.Keys == db.items.Keys
    decreases |records|
  {
    if records == [] then db
    else UpsertRecords(UpsertRecord(db, records[0], now), records[1..], now)
  }

  /** The record merge rule on one row, on its own (the record table only). */
  function MergeRecordRow(local: Option<Record>, incoming: Record, now: Timestamp): Option<Record>
  {
    if incoming.isDeleted then
      match local
      case None => None
      case Some(l) => Some(StoreRecord(l.(isDeleted := true, lastModified := now, isSynced := false)))
    else if local.None? || Le(local.value.lastModified, incoming.lastModified) then
      Some(StoreRecord(incoming.(isSynced := true)))
    else local
  }

  /** `upsertRecord` changes only the record row of the incoming id, as `MergeRecordRow` says. */
  lemma UpsertRecordIsRowMerge(db: Db, rec: Record, now: Timestamp)
    ensures RecordDao.GetRecordById(UpsertRecord(db, rec, now).records, rec.recordId)
      == MergeRecordRow(RecordDao.GetRecordById(db.records, rec.recordId), rec, now)
    ensures forall k :: k != rec.recordId ==>
      RecordDao.GetRecordById(UpsertRecord(db, rec, now).records, k) == RecordDao.GetRecordById(db.records, k)
  {
    var r := UpsertRecord(db, rec, now);
    if rec.isDeleted && rec.recordId in db.records {
      var l := db.records[rec.recordId];
      assert r.records[rec.recordId] == StoreRecord(l.(isDeleted := true, lastModified := now, isSynced := false));
    }
  }

  /** A batch of distinct record ids merges row by row in the record table. */
  lemma {:induction false} UpsertRecordsRowwise(db: Db, records: seq<Record>, now: Timestamp)
    requires RecordDao.DistinctIds(records)
    ensures forall i :: 0 <= i < |records| ==>
      RecordDao.GetRecordById(UpsertRecords(db, records, now).records, records[i].recordId)
        == MergeRecordRow(RecordDao.GetRecordById(db.records, records[i].recordId), records[i], now)
    ensures forall k :: (forall i :: 0 <= i < |records| ==> records[i].recordId != k) ==>
      RecordDao.GetRecordById(UpsertRecords(db, records, now).records, k) == RecordDao.GetRecordById(db.records, k)
    decreases |records|
  {
    if records != [] {
      var db1 := UpsertRecord(db, records[0], now);
      UpsertRecordIsRowMerge(db, records[0], now);
      var rest := records[1..];
      assert RecordDao.DistinctIds(rest) by {
        forall i, j | 0 <= i < |rest| && 0 <= j < |rest| && i != j
          ensures rest[i].recordId != rest[j].recordId
        {
          assert rest[i] == records[i + 1] && rest[j] == records[j + 1];
        }
      }
      UpsertRecordsRowwise(db1, rest, now);
      assert UpsertRecords(db, records, now) == UpsertRecords(db1, rest, now);
      forall i | 0 <= i < |records|
        ensures RecordDao.GetRecordById(UpsertRecords(db, records, now).records, records[i].recordId)
          == MergeRecordRow(RecordDao.GetRecordById(db.records, records[i].recordId), records[i], now)
      {
        if i == 0 {
          assert forall j :: 0 <= j < |rest| ==> rest[j] == records[j + 1] && rest[j].recordId != records[0].recordId;
        } else {
          assert rest[i - 1] == records[i];
        }
      }
      forall k | forall i :: 0 <= i < |records| ==> records[i].recordId != k
        ensures RecordDao.GetRecordById(UpsertRecords(db, records, now).records, k) == RecordDao.GetRecordById(db.records, k)
      {
        assert records[0].recordId != k;
        assert forall j :: 0 <= j < |rest| ==> rest[j] == records[j + 1];
      }
    }
  }

  /** `upsertRecord` of `rec` counts a clock-in on item `k`: an accepted update of a stored live record naming `k`. */
  predicate BumpsItem(t: RecordDao.RecordTable, rec: Record, k: string)
  {
    !rec.isDeleted && rec.recordId in t && AcceptsRecord(t, rec) && rec.itemId == k
  }

  /**
   * `upsertRecord` of `rec` rewrites item `k` through `modify`: a tombstone for a stored record
   * of `k` (the owner is read from the local row), or an accepted update of a stored record naming `k`.
   */
  predicate TouchesItem(t: RecordDao.RecordTable, rec: Record, k: string)
  {
    rec.recordId in t && (if rec.isDeleted then t[rec.recordId].itemId == k else AcceptsRecord(t, rec) && rec.itemId == k)
  }

  /** How many records of the batch bump item `k`'s counter, each judged against the table `t`. */
  function Bumps(t: RecordDao.RecordTable, batch: seq<Record>, k: string): nat
    decreases |batch|
  {
    if batch == [] then 0 else (if BumpsItem(t, batch[0], k) then 1 else 0) + Bumps(t, batch[1..], k)
  }

  /** The item side of one `upsertRecord`. */
  lemma UpsertRecordItemEffect(db: Db, rec: Record, now: Timestamp, k: string)
    requires k in db.items
    ensures UpsertRecord(db, rec, now).items.Keys == db.items.Keys
    ensures var after := UpsertRecord(db, rec, now).items[k];
      && after.clockInCount == db.items[k].clockInCount + (if BumpsItem(db.records, rec, k) then 1 else 0)
      && after.isDeleted == db.items[k].isDeleted
      && (TouchesItem(db.records, rec, k) ==> ItemStamped(db.items[k], after, now))
      && (!TouchesItem(db.records, rec, k) ==> after == db.items[k])
  {
    var r := UpsertRecord(db, rec, now);
    if rec.isDeleted && rec.recordId in db.records {
      var id := db.records[rec.recordId].itemId;
      assert r == DeleteRecord(db, rec.recordId, now);
      if k != id {
        assert r.items[k] == db.items[k];
      }
    } else if !rec.isDeleted && rec.recordId in db.records && AcceptsRecord(db.records, rec) {
      assert r.items == IncrementClockInCount(db, rec.itemId, now).items;
      if k != rec.itemId {
        assert r.items[k] == db.items[k];
      }
    } else {
      assert r.items == db.items;
    }
  }

  /** Two tables that hold the same rows for every id of the batch judge the batch alike. */
  lemma {:induction false} BumpsAgree(t1: RecordDao.RecordTable, t2: RecordDao.RecordTable, batch: seq<Record>, k: string)
    requires forall i :: 0 <= i < |batch| ==>
      RecordDao.GetRecordById(t1, batch[i].recordId) == RecordDao.GetRecordById(t2, batch[i].recordId)
    ensures Bumps(t1, batch, k) == Bumps(t2, batch, k)
    ensures forall i :: 0 <= i < |batch| ==> (TouchesItem(t1, batch[i], k) <==> TouchesItem(t2, batch[i], k))
    decreases |batch|
  {
    if batch != [] {
      assert forall i :: 0 <= i < |batch[1..]| ==> batch[1..][i] == batch[i + 1];
      BumpsAgree(t1, t2, batch[1..], k);
    }
  }

  /** Some record of the batch touches item `k`, judged against the table `t`. */
  predicate AnyTouches(t: RecordDao.RecordTable, batch: seq<Record>, k: string)
  {
    exists i :: 0 <= i < |batch| && TouchesItem(t, batch[i], k)
  }

  /** Upserting the head of a batch with distinct ids leaves the rows of the rest as they were. */
  lemma UpsertRecordKeepsRest(db: Db, records: seq<Record>, now: Timestamp)
    requires RecordDao.DistinctIds(records) && records != []
    ensures RecordDao.DistinctIds(records[1..])
    ensures forall i :: 0 <= i < |records[1..]| ==>
      RecordDao.GetRecordById(UpsertRecord(db, records[0], now).records, records[1..][i].recordId)
        == RecordDao.GetRecordById(db.records, records[1..][i].recordId)
  {
    RecordDao.DistinctTail(records);
    UpsertRecordIsRowMerge(db, records[0], now);
  }

  /**
   * The counter side of a batch of distinct record ids, for one stored item `k`: the counter
   * grows by the number of records in the batch that bump it, and no item row appears or goes.
   */
  lemma {:induction false} UpsertRecordsCounts(db: Db, records: seq<Record>, now: Timestamp, k: string)
    requires RecordDao.DistinctIds(records)
    requires k in db.items
    ensures UpsertRecords(db, records, now).items.Keys == db.items.Keys
    ensures UpsertRecords(db, records, now).items[k].clockInCount == db.items[k].clockInCount + Bumps(db.records, records, k)
    ensures UpsertRecords(db, records, now).items[k].isDeleted == db.items[k].isDeleted
    decreases |records|
  {
    if records != [] {
      var db1 := UpsertRecord(db, records[0], now);
      var rest := records[1..];
      UpsertRecordKeepsRest(db, records, now);
      UpsertRecordItemEffect(db, records[0], now, k);
      UpsertRecordsCounts(db1, rest, now, k);
      assert UpsertRecords(db, records, now) == UpsertRecords(db1, rest, now);
      BumpsAgree(db1.records, db.records, rest, k);
    }
  }

  /**
   * The stamp side of a batch of distinct record ids, for one stored item `k`: a touched item
   * is stamped and left unsynced, an untouched one is unchanged, and the tombstone flag is kept.
   */
  lemma {:induction false} UpsertRecordsStamps(db: Db, records: seq<Record>, now: Timestamp, k: string)
    requires RecordDao.DistinctIds(records)
    requires k in db.items
    ensures k in UpsertRecords(db, records, now).items
    ensures AnyTouches(db.records, records, k) ==> ItemStamped(db.items[k], UpsertRecords(db, records, now).items[k], now)
    ensures !AnyTouches(db.records, records, k) ==> UpsertRecords(db, records, now).items[k] == db.items[k]
    decreases |records|
  {
    if records != [] {
      var db1 := UpsertRecord(db, records[0], now);
      var rest := records[1..];
      UpsertRecordKeepsRest(db, records, now);
      UpsertRecordItemEffect(db, records[0], now, k);
      UpsertRecordsStamps(db1, rest, now, k);
      assert UpsertRecords(db, records, now) == UpsertRecords(db1, rest, now);
      BumpsAgree(db1.records, db.records, rest, k);
      AnyTouchesSplit(db.records, db1.records, records, k);
      var a0, a1, a2 := db.items[k], db1.items[k], UpsertRecords(db1, rest, now).items[k];
      if TouchesItem(db.records, records[0], k) {
        assert ItemStamped(a0, a1, now);
        assert ItemStamped(a0, a2, now);
      } else {
        assert a1 == a0;
      }
    }
  }

  /** Whether a batch touches an item: its first record, or one of the rest judged against `t1`. */
  lemma AnyTouchesSplit(t: RecordDao.RecordTable, t1: RecordDao.RecordTable, records: seq<Record>, k: string)
    requires records != []
    requires forall i :: 0 <= i < |records[1..]| ==> (TouchesItem(t1, records[1..][i], k) <==> TouchesItem(t, records[1..][i], k))
    ensures AnyTouches(t, records, k) <==> TouchesItem(t, records[0], k) || AnyTouches(t1, records[1..], k)
  {
    var rest := records[1..];
    if AnyTouches(t, records, k) {
      var i :| 0 <= i < |records| && TouchesItem(t, records[i], k);
      if i > 0 {
        assert rest[i - 1] == records[i];
      }
    }
    if AnyTouches(t1, rest, k) {
      var i :| 0 <= i < |rest| && TouchesItem(t1, rest[i], k);
      assert rest[i] == records[i + 1];
    }
  }

  /**
   * Re-applying the same incoming record leaves the record table as after one application,
   * but counts the clock-in on the owning item a second time.
   */
  lemma UpsertRecordTwiceCountsTwice(db: Db, rec: Record, now: Timestamp)
    requires !rec.isDeleted && rec.itemId in db.items && AcceptsRecord(db.records, rec)
    ensures UpsertRecord(UpsertRecord(db, rec, now), rec, now).records == UpsertRecord(db, rec, now).records
    ensures UpsertRecord(UpsertRecord(db, rec, now), rec, now).items[rec.itemId].clockInCount
      == UpsertRecord(db, rec, now).items[rec.itemId].clockInCount + 1
  {
    var once := UpsertRecord(db, rec, now);
    assert once.records[rec.recordId].lastModified == StampOf(rec.lastModified);
    assert AcceptsRecord(once.records, rec);
  }
}

/**
 * The two Room entities (data/database/ClockInItem.kt, data/database/ClockInRecord.kt).
 * Every field is a `val`, so a change is always a whole-row copy (`r.(field := v)` here).
 */
module Entities {
  import opened Common
  import opened Time
  import DbConverters

  /** A habit a user clocks in to; `itemId` is the primary key, `isDeleted` the tombstone. */
  datatype Item = Item(
    itemId: string,
    userId: string,
    name: string,
    description: Option<string>,
    clockInCount: int,
    lastModified: Timestamp,
    isSynced: bool,
    isDeleted: bool)

  /**
   * One clock-in; `recordId` is the primary key. `itemId` is a plain column with no
   * foreign-key constraint, so a record may name an item that does not exist.
   */
  datatype Record = Record(
    recordId: string,
    userId: string,
    itemId: string,
    timestamp: Timestamp,
    lastModified: Timestamp,
    isSynced: bool,
    isDeleted: bool)

  /** `ClockInItem(itemId, userId, name, description)` with the constructor defaults; `now` is `Timestamp.now()`. */
  function NewItem(itemId: string, userId: string, name: string, description: Option<string>, now: Timestamp): (it: Item)
    ensures it.itemId == itemId && it.userId == userId && it.name == name && it.description == description
    ensures it.clockInCount == 0 && it.lastModified == now && !it.isSynced && !it.isDeleted
  {
    Item(itemId, userId, name, description, 0, now, false, false)
  }

  /** `ClockInRecord(recordId, userId, itemId)`: both timestamps default to the creation time. */
  function NewRecord(recordId: string, userId: string, itemId: string, now: Timestamp): (r: Record)
    ensures r.recordId == recordId && r.userId == userId && r.itemId == itemId
    ensures r.timestamp == now && r.lastModified == now && !r.isSynced && !r.isDeleted
  {
    Record(recordId, userId, itemId, now, now, false, false)
  }

  /** An item as Room reads it back: its timestamp passed through the column converters. */
  function StoreItem(it: Item): (r: Item)
    ensures r.lastModified == Timestamp(it.lastModified.seconds, 0)
    ensures r.(lastModified := it.lastModified) == it
  {
    it.(lastModified := DbConverters.Stored(it.lastModified))
  }

  /** A record as Room reads it back: both timestamp columns truncated to whole seconds. */
  function StoreRecord(rec: Record): (r: Record)
    ensures r.timestamp == Timestamp(rec.timestamp.seconds, 0)
    ensures r.lastModified == Timestamp(rec.lastModified.seconds, 0)
    ensures r.(timestamp := rec.timestamp, lastModified := rec.lastModified) == rec
  {
    rec.(timestamp := DbConverters.Stored(rec.timestamp), lastModified := DbConverters.Stored(rec.lastModified))
  }

  /** The item could have been read from the database: its timestamp is a whole second. */
  predicate IsStoredItem(it: Item)
  {
    it.lastModified.nanos == 0
  }

  /** The record could have been read from the database. */
  predicate IsStoredRecord(rec: Record)
  {
    rec.timestamp.nanos == 0 && rec.lastModified.nanos == 0
  }

  /** Storing is a projection: a stored row is stored unchanged. */
  lemma StoreItemIsProjection(it: Item)
    ensures IsStoredItem(StoreItem(it))
    ensures IsStoredItem(it) <==> StoreItem(it) == it
  {
  }

  lemma StoreRecordIsProjection(rec: Record)
    ensures IsStoredRecord(StoreRecord(rec))
    ensures IsStoredRecord(rec) <==> StoreRecord(rec) == rec
  {
  }
}

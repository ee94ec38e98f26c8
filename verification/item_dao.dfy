/**
 * `ClockInItemDao` (data/database/ClockInItemDao.kt): each query as a pure function over the
 * `clock_in_items` table, a map from primary key to row.
 */
module ItemDao {
  import opened Common
  import opened Entities
  import Keys

  /** A row as the table holds it: keyed by its own id, timestamp truncated by the converter. */
  predicate IsItemRow(k: string, it: Item)
  {
    it.itemId == k && IsStoredItem(it)
  }

  /** `itemId` is the primary key, so the table holds at most one row per id. */
  type ItemTable = t: map<string, Item> | forall k :: k in t ==> IsItemRow(k, t[k])
    witness map[]

  /** Rows listed in ascending `itemId` order. */
  predicate IdsAscending(rows: seq<Item>)
  {
    forall i, j :: 0 <= i < j < |rows| ==> Keys.Less(rows[i].itemId, rows[j].itemId)
  }

  /** Ids pairwise distinct. */
  predicate DistinctIds(rows: seq<Item>)
  {
    forall i, j :: 0 <= i < |rows| && 0 <= j < |rows| && i != j ==> rows[i].itemId != rows[j].itemId
  }

  /** Dropping the first row keeps the rest pairwise distinct, and none of them shares its id. */
  lemma DistinctTail(rows: seq<Item>)
    requires DistinctIds(rows) && rows != []
    ensures DistinctIds(rows[1..])
    ensures forall i :: 0 < i < |rows| ==> rows[i].itemId != rows[0].itemId
  {
    var rest := rows[1..];
    forall i, j | 0 <= i < |rest| && 0 <= j < |rest| && i != j
      ensures rest[i].itemId != rest[j].itemId
    {
      assert rest[i] == rows[i + 1] && rest[j] == rows[j + 1];
    }
  }

  /** A listing in ascending id order names each id once. */
  lemma AscendingIdsAreDistinct(rows: seq<Item>)
    requires IdsAscending(rows)
    ensures DistinctIds(rows)
  {
    forall i, j | 0 <= i < |rows| && 0 <= j < |rows| && i != j
      ensures rows[i].itemId != rows[j].itemId
    {
      if i < j {
        Keys.LessIrreflexive(rows[i].itemId);
      } else {
        Keys.LessIrreflexive(rows[j].itemId);
      }
    }
  }

  /** Rows each of which is the table's row for its own id. */
  predicate RowsOf(t: ItemTable, rows: seq<Item>)
  {
    forall i :: 0 <= i < |rows| ==> rows[i].itemId in t && t[rows[i].itemId] == rows[i]
  }

  /** A `SELECT` over the table in key order: the rows satisfying `keep`, each once. */
  function SelectItems(t: ItemTable, keep: Item -> bool): (rows: seq<Item>)
    ensures RowsOf(t, rows) && IdsAscending(rows)
    ensures forall i :: 0 <= i < |rows| ==> keep(rows[i])
    ensures forall k :: k in t && keep(t[k]) ==> t[k] in rows
  {
    var ks := Keys.SelectKeys(t, keep);
    var rows := Keys.Select(t, keep);
    assert forall i :: 0 <= i < |rows| ==> rows[i].itemId == ks[i];
    assert forall k :: k in t && keep(t[k]) ==> k in ks;
    rows
  }

  /** `@Insert(onConflict = REPLACE)`: adds the row, or replaces the one with the same id. */
  function InsertOrUpdate(t: ItemTable, item: Item): (r: ItemTable)
    ensures r.Keys == t.Keys + {item.itemId}
    ensures r[item.itemId] == StoreItem(item)
    ensures forall k :: k in t && k != item.itemId ==> r[k] == t[k]
  {
    t[item.itemId := StoreItem(item)]
  }

  /** `@Delete`: removes the row with the entity's primary key, whatever its other fields. */
  function Delete(t: ItemTable, item: Item): (r: ItemTable)
    ensures r.Keys == t.Keys - {item.itemId}
    ensures forall k :: k in r ==> r[k] == t[k]
  {
    t - {item.itemId}
  }

  /** `WHERE userId = :userId AND isDeleted = 0 ORDER BY itemId`: the only query hiding tombstones. */
  function GetItemsByUser(t: ItemTable, userId: string): (r: seq<Item>)
    ensures RowsOf(t, r) && IdsAscending(r)
    ensures forall i :: 0 <= i < |r| ==> r[i].userId == userId && !r[i].isDeleted
    ensures forall k :: k in t && t[k].userId == userId && !t[k].isDeleted ==> t[k] in r
  {
    SelectItems(t, (it: Item) => it.userId == userId && !it.isDeleted)
  }

  /** `WHERE itemId = :itemId LIMIT 1`: tombstones and unsynced rows included. */
  function GetItemById(t: ItemTable, itemId: string): (r: Option<Item>)
    ensures r.Some? <==> itemId in t
    ensures r.Some? ==> r.value == t[itemId] && r.value.itemId == itemId
  {
    if itemId in t then Some(t[itemId]) else None
  }

  /** `WHERE userId = :userId AND isSynced = 0`: tombstones included. */
  function GetUnsyncedItems(t: ItemTable, userId: string): (r: seq<Item>)
    ensures RowsOf(t, r) && IdsAscending(r)
    ensures forall i :: 0 <= i < |r| ==> r[i].userId == userId && !r[i].isSynced
    ensures forall k :: k in t && t[k].userId == userId && !t[k].isSynced ==> t[k] in r
  {
    SelectItems(t, (it: Item) => it.userId == userId && !it.isSynced)
  }

  /** Two rows that differ at most in `clockInCount`. */
  predicate SameButCount(a: Item, b: Item)
  {
    a.(clockInCount := b.clockInCount) == b
  }

  /** `SET clockInCount = clockInCount + 1`: neither `lastModified` nor `isSynced` moves. */
  function IncrementClockInCount(t: ItemTable, itemId: string): (r: ItemTable)
    ensures r.Keys == t.Keys
    ensures forall k :: k in t && k != itemId ==> r[k] == t[k]
    ensures itemId in t ==> r[itemId].clockInCount == t[itemId].clockInCount + 1
    ensures itemId in t ==> SameButCount(t[itemId], r[itemId])
  {
    if itemId in t then t[itemId := t[itemId].(clockInCount := t[itemId].clockInCount + 1)] else t
  }

  /** `SET clockInCount = clockInCount - 1`: no floor, and no metadata stamp. */
  function DecrementClockInCount(t: ItemTable, itemId: string): (r: ItemTable)
    ensures r.Keys == t.Keys
    ensures forall k :: k in t && k != itemId ==> r[k] == t[k]
    ensures itemId in t ==> r[itemId].clockInCount == t[itemId].clockInCount - 1
    ensures itemId in t ==> SameButCount(t[itemId], r[itemId])
  {
    if itemId in t then t[itemId := t[itemId].(clockInCount := t[itemId].clockInCount - 1)] else t
  }

  /** `SET isDeleted = 1`: only the tombstone flag changes. */
  function MarkDeleted(t: ItemTable, itemId: string): (r: ItemTable)
    ensures r.Keys == t.Keys
    ensures forall k :: k in t && k != itemId ==> r[k] == t[k]
    ensures itemId in t ==> r[itemId].isDeleted && r[itemId].(isDeleted := t[itemId].isDeleted) == t[itemId]
  {
    if itemId in t then t[itemId := t[itemId].(isDeleted := true)] else t
  }
}

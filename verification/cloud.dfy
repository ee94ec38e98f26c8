/**
 * The Firestore side of the sync pass (ui/viewmodel/SyncViewModel.kt). Item documents live
 * under users/{userId}/items/{itemId}. Record documents live under
 * users/{userId}/items/{itemId}/records/{recordId} and are read back through the `records`
 * collection group. The pull reads them through two queries. The push writes them one `set`
 * at a time, and the first failing write aborts the batch.
 */
module Cloud {
  import opened Common
  import opened Time
  import opened Entities
  import Keys
  import ItemDao
  import RecordDao

  /** One user's `items` collection: each document's `itemId` field names its own path. */
  type ItemCollection = m: map<string, Item> | forall k :: k in m ==> m[k].itemId == k
    witness map[]

  /** The `records` collection group, one document per record id. */
  type RecordGroup = m: map<string, Record> | forall k :: k in m ==> m[k].recordId == k
    witness map[]

  datatype Store = Store(items: map<string, ItemCollection>, records: RecordGroup)

  function UserItems(c: Store, userId: string): ItemCollection
  {
    if userId in c.items then c.items[userId] else map[]
  }

  function ItemDoc(c: Store, userId: string, itemId: string): Option<Item>
  {
    if itemId in UserItems(c, userId) then Some(UserItems(c, userId)[itemId]) else None
  }

  function RecordDoc(c: Store, recordId: string): Option<Record>
  {
    if recordId in c.records then Some(c.records[recordId]) else None
  }

  /**
   * `userItemsRef(userId).whereGreaterThan("lastModified", since).get()`: exactly the user's
   * item documents strictly newer than `since`, in document-id order.
   */
  function QueryItems(c: Store, userId: string, since: Timestamp): (r: seq<Item>)
    ensures forall i :: 0 <= i < |r| ==> ItemDoc(c, userId, r[i].itemId) == Some(r[i]) && Lt(since, r[i].lastModified)
    ensures forall k :: k in UserItems(c, userId) && Lt(since, UserItems(c, userId)[k].lastModified) ==>
      exists i :: 0 <= i < |r| && r[i].itemId == k
    ensures ItemDao.IdsAscending(r)
  {
    var docs := UserItems(c, userId);
    var keep := (x: Item) => Lt(since, x.lastModified);
    var r := Keys.Select(docs, keep);
    var ks := Keys.SelectKeys(docs, keep);
    assert forall i :: 0 <= i < |r| ==> r[i].itemId == ks[i];
    forall k | k in docs && Lt(since, docs[k].lastModified)
      ensures exists i :: 0 <= i < |r| && r[i].itemId == k
    {
      var i := Keys.SelectFinds(docs, keep, k);
    }
    r
  }

  /**
   * The `records` collection-group query filtered on the `userId` field and on
   * `lastModified > since`: exactly those record documents, in document-id order.
   */
  function QueryRecords(c: Store, userId: string, since: Timestamp): (r: seq<Record>)
    ensures forall i :: 0 <= i < |r| ==>
      RecordDoc(c, r[i].recordId) == Some(r[i]) && r[i].userId == userId && Lt(since, r[i].lastModified)
    ensures forall k :: k in c.records && c.records[k].userId == userId && Lt(since, c.records[k].lastModified) ==>
      exists i :: 0 <= i < |r| && r[i].recordId == k
    ensures RecordDao.IdsAscending(r)
  {
    var keep := (x: Record) => x.userId == userId && Lt(since, x.lastModified);
    var r := Keys.Select(c.records, keep);
    var ks := Keys.SelectKeys(c.records, keep);
    assert forall i :: 0 <= i < |r| ==> r[i].recordId == ks[i];
    forall k | k in c.records && c.records[k].userId == userId && Lt(since, c.records[k].lastModified)
      ensures exists i :: 0 <= i < |r| && r[i].recordId == k
    {
      var i := Keys.SelectFinds(c.records, keep, k);
    }
    r
  }

  /** `userItemsRef(userId).document(doc.itemId).set(doc)`. */
  function SetItem(c: Store, userId: string, doc: Item): (r: Store)
    ensures ItemDoc(r, userId, doc.itemId) == Some(doc)
    ensures forall u, k :: (u, k) != (userId, doc.itemId) ==> ItemDoc(r, u, k) == ItemDoc(c, u, k)
    ensures r.records == c.records
  {
    c.(items := c.items[userId := UserItems(c, userId)[doc.itemId := doc]])
  }

  /** `...document(doc.itemId).collection("records").document(doc.recordId).set(doc)`. */
  function SetRecord(c: Store, doc: Record): (r: Store)
    ensures RecordDoc(r, doc.recordId) == Some(doc)
    ensures forall k :: k != doc.recordId ==> RecordDoc(r, k) == RecordDoc(c, k)
    ensures r.items == c.items
  {
    c.(records := c.records[doc.recordId := doc])
  }

  /** A batch of `n` writes whose write number `failAt` (if any) throws runs to the end iff `failAt` is past it. */
  predicate Completes(n: nat, failAt: Option<nat>)
  {
    failAt.None? || failAt.value >= n
  }

  /** How many writes of a batch of `n` took effect before the failing one. */
  function Reached(n: nat, failAt: Option<nat>): (r: nat)
    ensures r <= n
    ensures r == n <==> Completes(n, failAt)
  {
    if Completes(n, failAt) then n else failAt.value
  }

  /** The remote store after a batch of writes, and whether every write returned. */
  datatype Written = Written(store: Store, ok: bool)

  /**
   * The push loop over items from position `i` on. Write number `j` uploads `batch[j]` with
   * `lastModified` replaced by the clock reading `writeClock(j)`. The write numbered `failAt`
   * throws, which ends the loop.
   */
  function SetItemsFrom(c: Store, userId: string, batch: seq<Item>, i: nat, writeClock: nat -> Timestamp,
                        failAt: Option<nat>): (r: Written)
    requires i <= |batch|
    requires failAt.Some? ==> i <= failAt.value
    ensures r.ok <==> Completes(|batch|, failAt)
    ensures r.store.records == c.records
    ensures forall u, k :: u != userId ==> ItemDoc(r.store, u, k) == ItemDoc(c, u, k)
    decreases |batch| - i
  {
    if i == |batch| then Written(c, true)
    else if failAt == Some(i) then Written(c, false)
    else SetItemsFrom(SetItem(c, userId, batch[i].(lastModified := writeClock(i))), userId, batch, i + 1, writeClock, failAt)
  }

  function SetItems(c: Store, userId: string, batch: seq<Item>, writeClock: nat -> Timestamp, failAt: Option<nat>): (r: Written)
    ensures r.ok <==> Completes(|batch|, failAt)
    ensures r.store.records == c.records
    ensures forall u, k :: u != userId ==> ItemDoc(r.store, u, k) == ItemDoc(c, u, k)
  {
    SetItemsFrom(c, userId, batch, 0, writeClock, failAt)
  }

  /** The push loop over records from position `i` on, as `SetItemsFrom`. */
  function SetRecordsFrom(c: Store, batch: seq<Record>, i: nat, writeClock: nat -> Timestamp,
                          failAt: Option<nat>): (r: Written)
    requires i <= |batch|
    requires failAt.Some? ==> i <= failAt.value
    ensures r.ok <==> Completes(|batch|, failAt)
    ensures r.store.items == c.items
    decreases |batch| - i
  {
    if i == |batch| then Written(c, true)
    else if failAt == Some(i) then Written(c, false)
    else SetRecordsFrom(SetRecord(c, batch[i].(lastModified := writeClock(i))), batch, i + 1, writeClock, failAt)
  }

  function SetRecords(c: Store, batch: seq<Record>, writeClock: nat -> Timestamp, failAt: Option<nat>): (r: Written)
    ensures r.ok <==> Completes(|batch|, failAt)
    ensures r.store.items == c.items
  {
    SetRecordsFrom(c, batch, 0, writeClock, failAt)
  }

  /** A document that no write before the failure (or no write at all) addresses keeps its contents. */
  lemma {:induction false} SetItemsFromKeeps(c: Store, userId: string, batch: seq<Item>, i: nat,
                                             writeClock: nat -> Timestamp, failAt: Option<nat>, k: string)
    requires i <= |batch|
    requires failAt.Some? ==> i <= failAt.value
    requires forall j :: i <= j < Reached(|batch|, failAt) ==> batch[j].itemId != k
    ensures ItemDoc(SetItemsFrom(c, userId, batch, i, writeClock, failAt).store, userId, k) == ItemDoc(c, userId, k)
    decreases |batch| - i
  {
    if i < |batch| && failAt != Some(i) {
      var c1 := SetItem(c, userId, batch[i].(lastModified := writeClock(i)));
      assert SetItemsFrom(c, userId, batch, i, writeClock, failAt) == SetItemsFrom(c1, userId, batch, i + 1, writeClock, failAt);
      assert batch[i].itemId != k;
      assert ItemDoc(c1, userId, k) == ItemDoc(c, userId, k);
      SetItemsFromKeeps(c1, userId, batch, i + 1, writeClock, failAt, k);
    }
  }

  /**
   * A write that happened before the failure (or any write, when none fails) left its
   * document as the uploaded copy.
   */
  lemma {:induction false} SetItemsFromWrites(c: Store, userId: string, batch: seq<Item>, i: nat,
                                              writeClock: nat -> Timestamp, failAt: Option<nat>, j: nat)
    requires i <= j < Reached(|batch|, failAt)
    requires failAt.Some? ==> i <= failAt.value
    requires ItemDao.DistinctIds(batch)
    ensures ItemDoc(SetItemsFrom(c, userId, batch, i, writeClock, failAt).store, userId, batch[j].itemId)
      == Some(batch[j].(lastModified := writeClock(j)))
    decreases |batch| - i
  {
    var c1 := SetItem(c, userId, batch[i].(lastModified := writeClock(i)));
    assert SetItemsFrom(c, userId, batch, i, writeClock, failAt) == SetItemsFrom(c1, userId, batch, i + 1, writeClock, failAt);
    if j == i {
      assert forall m :: i + 1 <= m < Reached(|batch|, failAt) ==> batch[m].itemId != batch[i].itemId;
      SetItemsFromKeeps(c1, userId, batch, i + 1, writeClock, failAt, batch[i].itemId);
    } else {
      SetItemsFromWrites(c1, userId, batch, i + 1, writeClock, failAt, j);
    }
  }

  lemma SetItemsWrites(c: Store, userId: string, batch: seq<Item>, writeClock: nat -> Timestamp, failAt: Option<nat>)
    requires ItemDao.DistinctIds(batch)
    ensures forall j :: 0 <= j < Reached(|batch|, failAt) ==>
      ItemDoc(SetItems(c, userId, batch, writeClock, failAt).store, userId, batch[j].itemId)
        == Some(batch[j].(lastModified := writeClock(j)))
    ensures forall k :: (forall j :: 0 <= j < Reached(|batch|, failAt) ==> batch[j].itemId != k) ==>
      ItemDoc(SetItems(c, userId, batch, writeClock, failAt).store, userId, k) == ItemDoc(c, userId, k)
  {
    forall j | 0 <= j < Reached(|batch|, failAt)
      ensures ItemDoc(SetItems(c, userId, batch, writeClock, failAt).store, userId, batch[j].itemId)
        == Some(batch[j].(lastModified := writeClock(j)))
    {
      SetItemsFromWrites(c, userId, batch, 0, writeClock, failAt, j);
    }
    forall k | forall j :: 0 <= j < Reached(|batch|, failAt) ==> batch[j].itemId != k
      ensures ItemDoc(SetItems(c, userId, batch, writeClock, failAt).store, userId, k) == ItemDoc(c, userId, k)
    {
      SetItemsFromKeeps(c, userId, batch, 0, writeClock, failAt, k);
    }
  }

  /** The record counterpart of `SetItemsFromKeeps`. */
  lemma {:induction false} SetRecordsFromKeeps(c: Store, batch: seq<Record>, i: nat,
                                               writeClock: nat -> Timestamp, failAt: Option<nat>, k: string)
    requires i <= |batch|
    requires failAt.Some? ==> i <= failAt.value
    requires forall j :: i <= j < Reached(|batch|, failAt) ==> batch[j].recordId != k
    ensures RecordDoc(SetRecordsFrom(c, batch, i, writeClock, failAt).store, k) == RecordDoc(c, k)
    decreases |batch| - i
  {
    if i < |batch| && failAt != Some(i) {
      var c1 := SetRecord(c, batch[i].(lastModified := writeClock(i)));
      assert SetRecordsFrom(c, batch, i, writeClock, failAt) == SetRecordsFrom(c1, batch, i + 1, writeClock, failAt);
      assert batch[i].recordId != k;
      assert RecordDoc(c1, k) == RecordDoc(c, k);
      SetRecordsFromKeeps(c1, batch, i + 1, writeClock, failAt, k);
    }
  }

  /** The record counterpart of `SetItemsFromWrites`. */
  lemma {:induction false} SetRecordsFromWrites(c: Store, batch: seq<Record>, i: nat,
                                                writeClock: nat -> Timestamp, failAt: Option<nat>, j: nat)
    requires i <= j < Reached(|batch|, failAt)
    requires failAt.Some? ==> i <= failAt.value
    requires RecordDao.DistinctIds(batch)
    ensures RecordDoc(SetRecordsFrom(c, batch, i, writeClock, failAt).store, batch[j].recordId)
      == Some(batch[j].(lastModified := writeClock(j)))
    decreases |batch| - i
  {
    var c1 := SetRecord(c, batch[i].(lastModified := writeClock(i)));
    assert SetRecordsFrom(c, batch, i, writeClock, failAt) == SetRecordsFrom(c1, batch, i + 1, writeClock, failAt);
    if j == i {
      assert forall m :: i + 1 <= m < Reached(|batch|, failAt) ==> batch[m].recordId != batch[i].recordId;
      SetRecordsFromKeeps(c1, batch, i + 1, writeClock, failAt, batch[i].recordId);
    } else {
      SetRecordsFromWrites(c1, batch, i + 1, writeClock, failAt, j);
    }
  }

  lemma SetRecordsWrites(c: Store, batch: seq<Record>, writeClock: nat -> Timestamp, failAt: Option<nat>)
    requires RecordDao.DistinctIds(batch)
    ensures forall j :: 0 <= j < Reached(|batch|, failAt) ==>
      RecordDoc(SetRecords(c, batch, writeClock, failAt).store, batch[j].recordId)
        == Some(batch[j].(lastModified := writeClock(j)))
    ensures forall k :: (forall j :: 0 <= j < Reached(|batch|, failAt) ==> batch[j].recordId != k) ==>
      RecordDoc(SetRecords(c, batch, writeClock, failAt).store, k) == RecordDoc(c, k)
  {
    forall j | 0 <= j < Reached(|batch|, failAt)
      ensures RecordDoc(SetRecords(c, batch, writeClock, failAt).store, batch[j].recordId)
        == Some(batch[j].(lastModified := writeClock(j)))
    {
      SetRecordsFromWrites(c, batch, 0, writeClock, failAt, j);
    }
    forall k | forall j :: 0 <= j < Reached(|batch|, failAt) ==> batch[j].recordId != k
      ensures RecordDoc(SetRecords(c, batch, writeClock, failAt).store, k) == RecordDoc(c, k)
    {
      SetRecordsFromKeeps(c, batch, 0, writeClock, failAt, k);
    }
  }
}

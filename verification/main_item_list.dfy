/**
 * `getFilteredItems` (ui/main/ClockInItemList.kt): the user's visible items split, in one
 * pass, into those clocked in today and the rest. The date of a record's timestamp in the
 * device's zone is the parameter `dayOf`. "Today" is the single value `today`, read once
 * before the pass.
 */
module MainItemList {
  import opened Common
  import opened Time
  import opened Entities
  import Lists
  import ItemDao
  import RecordDao

  /** An item counts as clocked in iff its most recent record exists and falls on `today`. */
  predicate IsClockedInToday(mostRecent: Option<Record>, dayOf: Timestamp -> int, today: int)
  {
    mostRecent.Some? && dayOf(mostRecent.value.timestamp) == today
  }

  function ClockedInToday(records: RecordDao.RecordTable, userId: string, dayOf: Timestamp -> int, today: int): Item -> bool
  {
    (it: Item) => IsClockedInToday(RecordDao.GetMostRecentRecord(records, userId, it.itemId), dayOf, today)
  }

  /**
   * One pass over the user's visible items, in listing order, appends each to exactly one of
   * two lists: the result is `filter` and `filterNot` of the listing by `ClockedInToday`.
   */
  method GetFilteredItems(items: ItemDao.ItemTable, records: RecordDao.RecordTable, userId: string,
                          dayOf: Timestamp -> int, today: int)
    returns (clockedIn: seq<Item>, unClockedIn: seq<Item>)
    ensures clockedIn == Lists.Filter(ItemDao.GetItemsByUser(items, userId), ClockedInToday(records, userId, dayOf, today))
    ensures unClockedIn == Lists.FilterNot(ItemDao.GetItemsByUser(items, userId), ClockedInToday(records, userId, dayOf, today))
    ensures forall i :: 0 <= i < |clockedIn| ==>
      IsClockedInToday(RecordDao.GetMostRecentRecord(records, userId, clockedIn[i].itemId), dayOf, today)
    ensures forall i :: 0 <= i < |unClockedIn| ==>
      !IsClockedInToday(RecordDao.GetMostRecentRecord(records, userId, unClockedIn[i].itemId), dayOf, today)
  {
    var all := ItemDao.GetItemsByUser(items, userId);
    var isClockedIn := ClockedInToday(records, userId, dayOf, today);
    clockedIn, unClockedIn := Lists.Partition(all, isClockedIn);
  }

  /**
   * Every visible item of the user lands in exactly one of the two lists. Together the lists
   * hold the listing's elements, each as often as it occurs there.
   */
  lemma FilteredItemsPartition(items: ItemDao.ItemTable, records: RecordDao.RecordTable, userId: string,
                               dayOf: Timestamp -> int, today: int)
    ensures var all := ItemDao.GetItemsByUser(items, userId);
      var p := ClockedInToday(records, userId, dayOf, today);
      multiset(Lists.Filter(all, p)) + multiset(Lists.FilterNot(all, p)) == multiset(all)
    ensures var p := ClockedInToday(records, userId, dayOf, today);
      forall k :: k in items && items[k].userId == userId && !items[k].isDeleted ==>
        (items[k] in Lists.Filter(ItemDao.GetItemsByUser(items, userId), p) <==>
         items[k] !in Lists.FilterNot(ItemDao.GetItemsByUser(items, userId), p))
  {
    var all := ItemDao.GetItemsByUser(items, userId);
    var p := ClockedInToday(records, userId, dayOf, today);
    Lists.FilterPartition(all, p);
    forall k | k in items && items[k].userId == userId && !items[k].isDeleted
      ensures items[k] in Lists.Filter(all, p) <==> items[k] !in Lists.FilterNot(all, p)
    {
      var i :| 0 <= i < |all| && all[i] == items[k];
    }
  }

  /** Both lists keep the order of the item listing. */
  lemma FilteredItemsKeepOrder(items: ItemDao.ItemTable, records: RecordDao.RecordTable, userId: string,
                               dayOf: Timestamp -> int, today: int)
    ensures var all := ItemDao.GetItemsByUser(items, userId);
      var p := ClockedInToday(records, userId, dayOf, today);
      Lists.SubsequenceOf(Lists.Filter(all, p), all) && Lists.SubsequenceOf(Lists.FilterNot(all, p), all)
  {
    var all := ItemDao.GetItemsByUser(items, userId);
    var p := ClockedInToday(records, userId, dayOf, today);
    Lists.FilterPreservesOrder(all, p);
    Lists.FilterPreservesOrder(all, Lists.Not(p));
  }
}

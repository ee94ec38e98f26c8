# ClockInApp offline-first sync engine in Dafny

This project models the data and sync core of ClockInApp, an Android habit tracker. Users
keep *items* (habits) and clock in against them, which creates *records*. Both live in a
local Room database and are reconciled with Firestore on demand. The model covers:

- the entities and their `Timestamp` type converters. Room stores a Firebase `Timestamp` as
  `seconds * 1000`, so every stored timestamp is cut down to the whole second;
- the two Room DAOs, each query a pure function over a map from primary key to row;
- `LocalRepository`, the only writer of local rows. It covers the `modify` copy-and-stamp
  helpers, the item soft-delete that hard-deletes the item's records, the counters, the
  remote-merge entry points `upsertItem`/`upsertRecord`, and the record paths that touch
  the counters;
- the Firestore side as the sync pass sees it (`Cloud`): two queries and per-document `set`s
  that can fail part-way through a batch;
- `SyncViewModel`: the single-flight `sync`, the five steps of `performSync`, the pull and
  push phases, and the millisecond watermark;
- the list logic of the main screen: `ItemListViewModel`, `getFilteredItems` and `moveItem`.

Every operation is a pure state transition. The clock (`Timestamp.now()`), fresh document
ids, the device time zone, the current user and the outcome of every remote call are
parameters. A sync pass reads the clock through `SyncClock`: one reading per pull, shared by
every `modify` that pull performs; one per upload; one per marking step; and one for the save.
A repository call takes one clock reading, even where the code reads the clock several times
(see "## Left out").

Files, one module each: `common.dfy` (Option), `lists.dfy` (filter/partition/remove),
`keys.dfy` (string order and key-ordered scans), `time.dfy` (Timestamp, Java division),
`db_converters.dfy`, `date_converters.dfy`, `entities.dfy`, `item_dao.dfy`,
`record_dao.dfy`, `local_repository.dfy`, `cloud.dfy`, `sync_view_model.dfy`,
`item_list_view_model.dfy`, `main_item_list.dfy`, `item_list_moves.dfy`.

## Where the code departs from the intended behaviour

The model follows the code. It proves the following as the code behaves:

- **Counters.** `insertOrUpdateRecord` increments the item's counter only when the record
  already exists (the `!= null` test at LocalRepository.kt:127). So `insertRecord` of a
  fresh id leaves the counter unchanged. `deleteRecord`/`deleteMostRecentRecord` add one and
  then subtract one, a net change of zero. Marking a pushed record synced re-upserts it,
  which adds one (`SyncViewModel.PushRecordBumpsCount`). The counter is meant to equal the
  number of live records.
- **Counter floor.** The counter has no floor; it can go negative (`DecrementBelowZero`).
- **Days with a clock-in.** `hasClockInOnDay` counts tombstoned records (`TombstoneCountsForDay`).
  Only live records are meant to count.
- **Last-write-wins.** Stored timestamps are whole seconds, so the rule only holds across
  different seconds. Within one second the version merged last wins
  (`LastWriteLosesWithinSecond`). For the same reason, a snapshot taken in the same second
  as a local delete resurrects the item (`SameSecondSnapshotResurrects`).
- **Repeated sync.** A pushed tombstone is marked through `upsertItem` → `deleteItem`, which
  re-stamps it as unsynced (`PushItemsMarks`). Every later pass therefore pushes it again,
  and a second pass with no intervening changes is not a no-op. Likewise a pushed record's
  marking stamps its owning item as unsynced (`SyncRedirtiesRecordOwners`), so that item is
  uploaded again by the next pass.
- **Marking synced.** `unsynced.forEach { it.isSynced = true }` (SyncViewModel.kt:120 and
  :135) assigns to `isSynced`, which both entities declare `val` (ClockInItem.kt:16,
  ClockInRecord.kt:15). Kotlin rejects that assignment, so the file does not compile as
  written. The model takes the evident reading: the pushes upsert copies marked synced
  (`MarkItemsSynced`, `MarkRecordsSynced`), as the pulls do with `copy(isSynced = true)`.
- **Errors escape the pass.** `sync()` wraps `performSync()` in `try`/`finally` with no
  `catch` (SyncViewModel.kt:49-53). A failing query or upload lowers the flag and then
  propagates out of the coroutine started by `viewModelScope.launch`, where it is uncaught;
  on Android an uncaught exception in that scope ends the process. Sync errors are meant to
  be caught and reported. The model stops the run at the failing step and lowers
  the flag; it does not model the crash.
- **Watermark.** The watermark saved is the clock read after both pushes, not at the start of
  the pass.

## Model

| member | source | states |
|---|---|---|
| Entities.NewItem | app/src/main/java/com/cipherxzc/clockinapp/data/database/ClockInItem.kt:8-18 | a new item carries the given id, user, name and description, count 0, `lastModified` = construction clock, not synced, not deleted |
| Entities.NewRecord | app/src/main/java/com/cipherxzc/clockinapp/data/database/ClockInRecord.kt:9-17 | a new record carries the given ids; `timestamp` and `lastModified` both default to the creation clock; not synced, not deleted |
| Entities.StoreItem | app/src/main/java/com/cipherxzc/clockinapp/data/database/Converters.kt:10-18 | an item read back from Room differs from the written one only in `lastModified`, which is truncated to its whole second |
| Entities.StoreRecord | app/src/main/java/com/cipherxzc/clockinapp/data/database/Converters.kt:10-18 | a record read back keeps every field except the two timestamps, each truncated to its whole second |
| Entities.StoreItemIsProjection | app/src/main/java/com/cipherxzc/clockinapp/data/database/Converters.kt:10-18 | storing is idempotent: a row already read back is unchanged by another store, and only such rows are |
| Entities.StoreRecordIsProjection | app/src/main/java/com/cipherxzc/clockinapp/data/database/Converters.kt:10-18 | the same for records |
| DbConverters.FromTimestamp | app/src/main/java/com/cipherxzc/clockinapp/data/database/Converters.kt:10-13 | null maps to null; a stored value is always a multiple of 1000 |
| DbConverters.FromDate | app/src/main/java/com/cipherxzc/clockinapp/data/database/Converters.kt:15-18 | `Timestamp(Date(m))`, truncating division plus the negative-remainder borrow, equals floor division: seconds `m div 1000`, nanos `(m mod 1000)·10^6` |
| DbConverters.ToTimestamp | app/src/main/java/com/cipherxzc/clockinapp/data/database/Converters.kt:15-18 | null maps to null; otherwise `m` milliseconds split by floor division: seconds `m div 1000` and nanos `(m mod 1000)·10^6` |
| DbConverters.Millis | app/src/main/java/com/cipherxzc/clockinapp/data/database/Converters.kt:12 | the stored column value is a multiple of 1000 whose quotient is the timestamp's seconds |
| DbConverters.Stored | app/src/main/java/com/cipherxzc/clockinapp/data/database/Converters.kt:10-18 | write then read gives `(t.seconds, 0)`, never later than `t` |
| DbConverters.MillisRoundTrip | app/src/main/java/com/cipherxzc/clockinapp/data/database/Converters.kt:10-18 | millis → Timestamp → millis is `m − m mod 1000`, the identity on multiples of 1000 |
| DbConverters.MillisMonotone | app/src/main/java/com/cipherxzc/clockinapp/data/database/Converters.kt:12 | stored millis are monotone in timestamp order |
| DbConverters.MillisReflectsOrder | app/src/main/java/com/cipherxzc/clockinapp/data/database/Converters.kt:12 | a smaller stored value means a strictly earlier instant |
| DbConverters.MillisNotInjective | app/src/main/java/com/cipherxzc/clockinapp/data/database/Converters.kt:12 | two distinct instants within one second are stored alike |
| DateConverters.FromTimestamp | app/src/main/java/com/cipherxzc/clockinapp/data/Converters.kt:9-12 | null maps to null; the nano field is 0; for m ≥ 0 the epoch second is `m div 1000` (the Java division rounds toward zero, see `DateConverters.PreEpochRoundsUp` for m < 0) |
| DateConverters.DateToTimestamp | app/src/main/java/com/cipherxzc/clockinapp/data/Converters.kt:14-17 | null maps to null; the millis are the epoch second times 1000 plus the whole milliseconds of the nanos (quotient and remainder by 1000 stated separately) |
| DateConverters.MillisRoundTrip | app/src/main/java/com/cipherxzc/clockinapp/data/Converters.kt:9-17 | millis → date-time → millis is `m − JavaRem(m, 1000)`, and `m − m mod 1000` for m ≥ 0 |
| DateConverters.DateRoundTrip | app/src/main/java/com/cipherxzc/clockinapp/data/Converters.kt:9-17 | date-time → millis → date-time zeroes the sub-second part, at or after the epoch |
| DateConverters.PreEpochRoundsUp | app/src/main/java/com/cipherxzc/clockinapp/data/Converters.kt:9-17 | before the epoch, truncation toward zero moves 1969-12-31T23:59:59.5 forward to the epoch |
| ItemDao.InsertOrUpdate | app/src/main/java/com/cipherxzc/clockinapp/data/database/ClockInItemDao.kt:12-13 | REPLACE: the row under the item's id becomes the (stored) item; every other row is unchanged |
| ItemDao.Delete | app/src/main/java/com/cipherxzc/clockinapp/data/database/ClockInItemDao.kt:15-16 | removes only the row with the item's primary key |
| ItemDao.GetItemsByUser | app/src/main/java/com/cipherxzc/clockinapp/data/database/ClockInItemDao.kt:18-19 | exactly the user's non-deleted rows, in ascending `itemId` order |
| ItemDao.GetItemById | app/src/main/java/com/cipherxzc/clockinapp/data/database/ClockInItemDao.kt:21-22 | the row with that id whatever its flags, or None iff absent |
| ItemDao.GetUnsyncedItems | app/src/main/java/com/cipherxzc/clockinapp/data/database/ClockInItemDao.kt:24-25 | exactly the user's unsynced rows, tombstones included |
| ItemDao.IncrementClockInCount | app/src/main/java/com/cipherxzc/clockinapp/data/database/ClockInItemDao.kt:27-28 | the SQL update adds one to the count and changes nothing else, neither `lastModified` nor `isSynced` |
| ItemDao.DecrementClockInCount | app/src/main/java/com/cipherxzc/clockinapp/data/database/ClockInItemDao.kt:30-31 | subtracts one and changes nothing else |
| ItemDao.MarkDeleted | app/src/main/java/com/cipherxzc/clockinapp/data/database/ClockInItemDao.kt:33-34 | sets only `isDeleted` |
| RecordDao.InsertOrUpdate | app/src/main/java/com/cipherxzc/clockinapp/data/database/ClockInRecordDao.kt:11-12 | replaces or adds by `recordId`; other rows unchanged |
| RecordDao.DeleteRecord | app/src/main/java/com/cipherxzc/clockinapp/data/database/ClockInRecordDao.kt:14-15 | removes only that primary key |
| RecordDao.GetRecordById | app/src/main/java/com/cipherxzc/clockinapp/data/database/ClockInRecordDao.kt:17-18 | the row with that id, or None iff absent |
| RecordDao.DeleteRecordsByItem | app/src/main/java/com/cipherxzc/clockinapp/data/database/ClockInRecordDao.kt:20-21 | physically removes exactly the rows matching both user and item; the rest stay as they were |
| RecordDao.SortNewestFirst | app/src/main/java/com/cipherxzc/clockinapp/data/database/ClockInRecordDao.kt:23-24 | `ORDER BY timestamp DESC`: the output is a permutation of the input, sorted by stored millis, newest first |
| RecordDao.SortKeepsIdsDistinct | app/src/main/java/com/cipherxzc/clockinapp/data/database/ClockInRecordDao.kt:23-24 | sorting rows with distinct ids keeps them distinct, so no row is listed twice |
| RecordDao.GetRecordsByItem | app/src/main/java/com/cipherxzc/clockinapp/data/database/ClockInRecordDao.kt:23-24 | exactly the matching rows (tombstones included), each once, newest first |
| RecordDao.GetUnsyncedRecords | app/src/main/java/com/cipherxzc/clockinapp/data/database/ClockInRecordDao.kt:26-27 | exactly the user's unsynced rows |
| RecordDao.HasRecordInRange | app/src/main/java/com/cipherxzc/clockinapp/data/database/ClockInRecordDao.kt:29-37 | false on an empty range (`end < start`); when true, the item has a most recent record and it is stored no earlier than `start` |
| RecordDao.HasRecordInRangeBySorted | app/src/main/java/com/cipherxzc/clockinapp/data/database/ClockInRecordDao.kt:29-37 | the EXISTS query (both ends inclusive, tombstones included) agrees with scanning the item's sorted listing |
| RecordDao.MarkDeleted | app/src/main/java/com/cipherxzc/clockinapp/data/database/ClockInRecordDao.kt:39-40 | sets only `isDeleted`; `lastModified` and `isSynced` unchanged |
| RecordDao.GetMostRecentRecord | app/src/main/java/com/cipherxzc/clockinapp/data/database/ClockInRecordDao.kt:42-43 | None iff no matching row; otherwise a matching row (tombstones included) whose stored `timestamp` is maximal among the matches |
| LocalRepository.StrictlyNewestIsMostRecent | app/src/main/java/com/cipherxzc/clockinapp/data/database/ClockInRecordDao.kt:42-43 | a matching row stored strictly later than every other match is the one the query returns |
| LocalRepository.ModifyItem | app/src/main/java/com/cipherxzc/clockinapp/data/repository/LocalRepository.kt:30-44 | a `modify` copy keeps id and user, takes the given name, description, count and `isDeleted`, sets `lastModified` to the clock and clears `isSynced` |
| LocalRepository.ModifyRecord | app/src/main/java/com/cipherxzc/clockinapp/data/repository/LocalRepository.kt:46-54 | the record copy keeps its ids and `timestamp`, takes the given `isDeleted`, stamps the clock, clears `isSynced` |
| LocalRepository.WriteItem | app/src/main/java/com/cipherxzc/clockinapp/data/repository/LocalRepository.kt:56-58 | an item write is the DAO's REPLACE and leaves the records alone |
| LocalRepository.InsertItem | app/src/main/java/com/cipherxzc/clockinapp/data/repository/LocalRepository.kt:60-69 | stores and returns one row with the given id, user, name and description, count 0, unsynced, live; no other row changes |
| LocalRepository.GetUnsyncedItems | app/src/main/java/com/cipherxzc/clockinapp/data/repository/LocalRepository.kt:99-100 | exactly the user's unsynced stored rows, tombstones included, each once |
| LocalRepository.DeleteItem | app/src/main/java/com/cipherxzc/clockinapp/data/repository/LocalRepository.kt:71-79 | absent id: no-op. Present: the row becomes a stamped tombstone (name, description and count kept), and exactly the records of that user and item are removed |
| LocalRepository.DeleteItemTwice | app/src/main/java/com/cipherxzc/clockinapp/data/repository/LocalRepository.kt:71-79 | deleting an item twice is the same as deleting it once at the second clock |
| LocalRepository.IncrementClockInCount | app/src/main/java/com/cipherxzc/clockinapp/data/repository/LocalRepository.kt:81-88 | absent: no-op; present, tombstones included: count +1, row stamped, others unchanged |
| LocalRepository.DecrementClockInCount | app/src/main/java/com/cipherxzc/clockinapp/data/repository/LocalRepository.kt:90-97 | the same with count −1 |
| LocalRepository.DecrementBelowZero | app/src/main/java/com/cipherxzc/clockinapp/data/repository/LocalRepository.kt:90-97 | there is no floor: a zero count goes to −1 |
| LocalRepository.UpsertItem | app/src/main/java/com/cipherxzc/clockinapp/data/repository/LocalRepository.kt:102-114 | an incoming tombstone is exactly `deleteItem` whatever the timestamps: nothing is stored if absent, and otherwise the item's records go too. A live item replaces the row, marked synced, iff the row is absent or `local ≤ incoming`; otherwise nothing changes |
| LocalRepository.UpsertItemIsRowMerge | app/src/main/java/com/cipherxzc/clockinapp/data/repository/LocalRepository.kt:102-114 | `upsertItem` changes only the incoming id's row, exactly as the reference rule `MergeItemRow` |
| LocalRepository.UpsertItemIdempotent | app/src/main/java/com/cipherxzc/clockinapp/data/repository/LocalRepository.kt:102-114 | applying the same entity twice: a live one equals one application; a tombstone equals one application at the second clock, whose stamp the row then carries |
| LocalRepository.UpsertResurrectsTombstone | app/src/main/java/com/cipherxzc/clockinapp/data/repository/LocalRepository.kt:106-113 | a live incoming item no older than a local tombstone brings the item back, synced |
| LocalRepository.TombstoneBeatsNewerLocal | app/src/main/java/com/cipherxzc/clockinapp/data/repository/LocalRepository.kt:102-105 | an incoming tombstone older than the live local row still deletes it, leaving it unsynced |
| LocalRepository.StaleSnapshotKeepsTombstone | app/src/main/java/com/cipherxzc/clockinapp/data/repository/LocalRepository.kt:71-114 | delete, then merge a live snapshot from an earlier second: the item stays deleted |
| LocalRepository.SameSecondSnapshotResurrects | app/src/main/java/com/cipherxzc/clockinapp/data/repository/LocalRepository.kt:71-114 | delete, then merge a live snapshot from the same second (but earlier): the item is resurrected |
| LocalRepository.LastWriteWinsAcrossSeconds | app/src/main/java/com/cipherxzc/clockinapp/data/repository/LocalRepository.kt:106-113 | two live versions from different seconds merged in either order leave the newer |
| LocalRepository.LastWriteLosesWithinSecond | app/src/main/java/com/cipherxzc/clockinapp/data/repository/LocalRepository.kt:106-113 | two versions within one second: the one merged last wins, even if older |
| LocalRepository.UpsertItems | app/src/main/java/com/cipherxzc/clockinapp/ui/viewmodel/SyncViewModel.kt:84 | the batch upsert is a left fold; an empty batch changes nothing |
| LocalRepository.UpsertItemsRowwise | app/src/main/java/com/cipherxzc/clockinapp/ui/viewmodel/SyncViewModel.kt:84 | a batch with distinct ids merges each listed row by `MergeItemRow` and leaves every other row unchanged |
| LocalRepository.UpsertItemsPurgesRecords | app/src/main/java/com/cipherxzc/clockinapp/ui/viewmodel/SyncViewModel.kt:84 | on the record table, a batch of distinct item ids removes exactly the records of the stored items the batch tombstones (each by its stored owner); every other record row is unchanged |
| LocalRepository.PurgedByStep | app/src/main/java/com/cipherxzc/clockinapp/ui/viewmodel/SyncViewModel.kt:84 | a record is purged by a batch iff the first item tombstones its stored owner or the rest of the batch, applied after it, does |
| LocalRepository.HasClockInOnDay | app/src/main/java/com/cipherxzc/clockinapp/data/repository/LocalRepository.kt:119-124 | true iff some record of the user and item (tombstones included) has stored millis in `[startOfDay, startOfNextDay)` |
| LocalRepository.InclusiveEndIsHalfOpen | app/src/main/java/com/cipherxzc/clockinapp/data/repository/LocalRepository.kt:121-123 | the inclusive range ending at `next − 1` is the half-open day on the millisecond grid |
| LocalRepository.TombstoneCountsForDay | app/src/main/java/com/cipherxzc/clockinapp/data/repository/LocalRepository.kt:119-124 | a tombstoned record on that day still makes the answer true |
| LocalRepository.InsertOrUpdateRecord | app/src/main/java/com/cipherxzc/clockinapp/data/repository/LocalRepository.kt:126-131 | the record is written by REPLACE; the owning item's counter is bumped iff the record id already existed |
| LocalRepository.AsWrittenNeverReturns | app/src/main/java/com/cipherxzc/clockinapp/data/repository/LocalRepository.kt:126-131 | as written, the call recurses into itself with no base case, so it never completes: however many nested calls are followed it has not written the record, and with an existing record it has bumped the counter once per level |
| LocalRepository.InsertRecord | app/src/main/java/com/cipherxzc/clockinapp/data/repository/LocalRepository.kt:133-141 | stores and returns a new record (both timestamps = clock, unsynced, live); other records unchanged; a fresh id leaves every item unchanged |
| LocalRepository.DeleteRecord | app/src/main/java/com/cipherxzc/clockinapp/data/repository/LocalRepository.kt:143-151 | absent: no-op. Present: a stamped tombstone; the owning item is stamped with a net count change of 0 |
| LocalRepository.DeleteMostRecentRecord | app/src/main/java/com/cipherxzc/clockinapp/data/repository/LocalRepository.kt:156-164 | no-op when no matching record; otherwise `deleteRecord` of the most recent match |
| LocalRepository.GetUnsyncedRecords | app/src/main/java/com/cipherxzc/clockinapp/data/repository/LocalRepository.kt:166 | exactly the user's unsynced stored records, tombstones included, each once |
| LocalRepository.WithdrawTwiceRetargets | app/src/main/java/com/cipherxzc/clockinapp/data/repository/LocalRepository.kt:156-164 | after one withdrawal the newest record is a tombstone and is still the most recent, so a second withdrawal targets it again |
| LocalRepository.UpsertRecord | app/src/main/java/com/cipherxzc/clockinapp/data/repository/LocalRepository.kt:168-180 | incoming tombstone: exactly `deleteRecord` whatever the timestamps. Live: accepted iff absent or `local ≤ incoming`, then exactly `insertOrUpdateRecord` of the synced copy; an accepted existing record bumps its item's counter |
| LocalRepository.UpsertRecordIsRowMerge | app/src/main/java/com/cipherxzc/clockinapp/data/repository/LocalRepository.kt:168-180 | on the record table `upsertRecord` is the reference rule `MergeRecordRow` on the incoming id only |
| LocalRepository.UpsertRecordTwiceCountsTwice | app/src/main/java/com/cipherxzc/clockinapp/data/repository/LocalRepository.kt:168-180 | re-applying an accepted record leaves the records as they were but bumps the counter again |
| LocalRepository.UpsertRecords | app/src/main/java/com/cipherxzc/clockinapp/ui/viewmodel/SyncViewModel.kt:101 | the batch upsert is a left fold; an empty batch changes nothing |
| LocalRepository.UpsertRecordsRowwise | app/src/main/java/com/cipherxzc/clockinapp/ui/viewmodel/SyncViewModel.kt:101 | a batch with distinct ids merges each listed record row by `MergeRecordRow`, other record rows unchanged |
| LocalRepository.UpsertRecordItemEffect | app/src/main/java/com/cipherxzc/clockinapp/data/repository/LocalRepository.kt:126-131 | one `upsertRecord` keeps the item keys and tombstone flags; it bumps item `k` iff it is an accepted update of a stored record naming `k`; it re-stamps `k` iff it touches `k`, and otherwise leaves `k`'s row alone |
| LocalRepository.UpsertRecordsCounts | app/src/main/java/com/cipherxzc/clockinapp/ui/viewmodel/SyncViewModel.kt:101 | a batch of distinct record ids raises each item's counter by the number of its records that are accepted updates of stored records, each judged against the table before the batch |
| LocalRepository.UpsertRecordsStamps | app/src/main/java/com/cipherxzc/clockinapp/ui/viewmodel/SyncViewModel.kt:101 | an item some batch record touches (a tombstone of one of its stored records, or an accepted update naming it) ends stamped and unsynced with its tombstone flag kept; an untouched item row is unchanged |
| Cloud.QueryItems | app/src/main/java/com/cipherxzc/clockinapp/ui/viewmodel/SyncViewModel.kt:74-75 | exactly the user's item documents with `lastModified` strictly after the watermark, in id order |
| Cloud.QueryRecords | app/src/main/java/com/cipherxzc/clockinapp/ui/viewmodel/SyncViewModel.kt:90-93 | exactly the record documents whose `userId` field is the user's and whose `lastModified` is strictly after the watermark |
| Cloud.SetItem | app/src/main/java/com/cipherxzc/clockinapp/ui/viewmodel/SyncViewModel.kt:113-117 | a `set` puts the document at the user's path under its own id and touches no other document |
| Cloud.SetRecord | app/src/main/java/com/cipherxzc/clockinapp/ui/viewmodel/SyncViewModel.kt:129-133 | the same for a record document |
| Cloud.SetItemsFrom | app/src/main/java/com/cipherxzc/clockinapp/ui/viewmodel/SyncViewModel.kt:112-118 | the upload loop returns normally iff no write up to the end fails; other users' documents and all records unchanged |
| Cloud.SetRecordsFrom | app/src/main/java/com/cipherxzc/clockinapp/ui/viewmodel/SyncViewModel.kt:128-134 | the same for records; item documents unchanged |
| Cloud.SetItems | app/src/main/java/com/cipherxzc/clockinapp/ui/viewmodel/SyncViewModel.kt:112-118 | the whole upload loop returns normally iff no write fails; records and other users' documents unchanged |
| Cloud.SetRecords | app/src/main/java/com/cipherxzc/clockinapp/ui/viewmodel/SyncViewModel.kt:128-134 | the whole record upload loop returns normally iff no write fails; item documents unchanged |
| Cloud.SetItemsFromKeeps | app/src/main/java/com/cipherxzc/clockinapp/ui/viewmodel/SyncViewModel.kt:112-118 | a document that no write before the failing one addresses keeps its contents |
| Cloud.SetItemsFromWrites | app/src/main/java/com/cipherxzc/clockinapp/ui/viewmodel/SyncViewModel.kt:112-118 | a write made before the failing one leaves its document as the entity with that write's clock reading, even after the later writes |
| Cloud.SetItemsWrites | app/src/main/java/com/cipherxzc/clockinapp/ui/viewmodel/SyncViewModel.kt:112-118 | over the whole batch: every write before the failure is in the store with its own clock reading, and every other document of the user is untouched |
| Cloud.SetRecordsFromKeeps | app/src/main/java/com/cipherxzc/clockinapp/ui/viewmodel/SyncViewModel.kt:128-134 | the record counterpart of `SetItemsFromKeeps` |
| Cloud.SetRecordsFromWrites | app/src/main/java/com/cipherxzc/clockinapp/ui/viewmodel/SyncViewModel.kt:128-134 | the record counterpart of `SetItemsFromWrites` |
| Cloud.SetRecordsWrites | app/src/main/java/com/cipherxzc/clockinapp/ui/viewmodel/SyncViewModel.kt:128-134 | the record counterpart of `SetItemsWrites` |
| SyncViewModel.DecodeWatermark | app/src/main/java/com/cipherxzc/clockinapp/ui/viewmodel/SyncViewModel.kt:142-145 | decodes iff `m ≥ 0` or `m` is a whole number of seconds (otherwise the constructor throws on negative nanos); what decodes encodes back to `m`, nanos a whole number of milliseconds |
| SyncViewModel.EncodeWatermark | app/src/main/java/com/cipherxzc/clockinapp/ui/viewmodel/SyncViewModel.kt:147-149 | the saved millis hold the seconds as quotient by 1000 and the whole milliseconds of the nanos as remainder |
| SyncViewModel.MissingWatermarkIsEpoch | app/src/main/java/com/cipherxzc/clockinapp/ui/viewmodel/SyncViewModel.kt:142-145 | the default 0 decodes to the epoch |
| SyncViewModel.WatermarkRoundTrip | app/src/main/java/com/cipherxzc/clockinapp/ui/viewmodel/SyncViewModel.kt:142-149 | a watermark saved at or after the epoch reads back as the saved instant truncated to the millisecond, never later |
| SyncViewModel.PreEpochWatermarkIsRejected | app/src/main/java/com/cipherxzc/clockinapp/ui/viewmodel/SyncViewModel.kt:142-149 | a pre-epoch watermark with a millisecond part cannot be read back |
| SyncViewModel.PullUpdatedItems | app/src/main/java/com/cipherxzc/clockinapp/ui/viewmodel/SyncViewModel.kt:73-85 | an empty query changes nothing; on the record table exactly the records of stored items whose remote document, newer than the watermark, is a tombstone are removed, and the rest are unchanged |
| SyncViewModel.PulledTombstonesAreQueried | app/src/main/java/com/cipherxzc/clockinapp/ui/viewmodel/SyncViewModel.kt:74-84 | the tombstones among the queried documents delete exactly the records of items whose remote document newer than the watermark is a tombstone |
| SyncViewModel.MarkItemsSynced | app/src/main/java/com/cipherxzc/clockinapp/ui/viewmodel/SyncViewModel.kt:81 | one entity per input, in order, each marked synced with every other field kept (also the marking at :120) |
| SyncViewModel.MarkRecordsSynced | app/src/main/java/com/cipherxzc/clockinapp/ui/viewmodel/SyncViewModel.kt:98 | the record counterpart (also the marking at :135) |
| SyncViewModel.PullUpdatedRecords | app/src/main/java/com/cipherxzc/clockinapp/ui/viewmodel/SyncViewModel.kt:87-102 | an empty query changes nothing; item keys and tombstone flags are kept; each item's counter rises by the number of pulled records that are accepted updates of its stored records; an item a pulled record touches is re-stamped and unsynced; other items are unchanged |
| SyncViewModel.MarkedItemsPurge | app/src/main/java/com/cipherxzc/clockinapp/ui/viewmodel/SyncViewModel.kt:81-84 | marking item documents synced does not change which records a batch deletes |
| SyncViewModel.MarkedRecordsJudgedAlike | app/src/main/java/com/cipherxzc/clockinapp/ui/viewmodel/SyncViewModel.kt:98-101 | marking record documents synced changes neither the bump count nor which items a batch touches |
| SyncViewModel.MarkedRecordsItemEffect | app/src/main/java/com/cipherxzc/clockinapp/ui/viewmodel/SyncViewModel.kt:98-101 | the item side of merging distinct records marked synced: counters rise by the bump count, touched items are stamped, others unchanged |
| SyncViewModel.PullItemsMergesEachRow | app/src/main/java/com/cipherxzc/clockinapp/ui/viewmodel/SyncViewModel.kt:73-85 | each local item row whose remote document is newer than the watermark is merged with that document marked synced; every other row is unchanged |
| SyncViewModel.PullRecordsMergesEachRow | app/src/main/java/com/cipherxzc/clockinapp/ui/viewmodel/SyncViewModel.kt:87-102 | the same for record rows, for the user's documents only |
| SyncViewModel.PushUnsyncedItems | app/src/main/java/com/cipherxzc/clockinapp/ui/viewmodel/SyncViewModel.kt:108-122 | returns normally iff every upload does; after a failing upload the local database is unchanged |
| SyncViewModel.PushUnsyncedRecords | app/src/main/java/com/cipherxzc/clockinapp/ui/viewmodel/SyncViewModel.kt:124-137 | the same for records |
| SyncViewModel.PushItemsUploads | app/src/main/java/com/cipherxzc/clockinapp/ui/viewmodel/SyncViewModel.kt:112-118 | each upload that happened left the local row remotely, under its id, with the push time as `lastModified`; documents of rows that were not dirty are untouched |
| SyncViewModel.PushItemsMarks | app/src/main/java/com/cipherxzc/clockinapp/ui/viewmodel/SyncViewModel.kt:120-121 | after a full push a pushed live row is the same row marked synced; a pushed tombstone is re-stamped and still unsynced; other rows unchanged |
| SyncViewModel.MarkingMergesEachItemRow | app/src/main/java/com/cipherxzc/clockinapp/ui/viewmodel/SyncViewModel.kt:120-121 | re-upserting the user's unsynced items, marked synced, yields `MarkedItemRow` on every row |
| SyncViewModel.PushRecordsUploads | app/src/main/java/com/cipherxzc/clockinapp/ui/viewmodel/SyncViewModel.kt:128-134 | the record counterpart of `PushItemsUploads` |
| SyncViewModel.PushRecordsMarks | app/src/main/java/com/cipherxzc/clockinapp/ui/viewmodel/SyncViewModel.kt:135-136 | the record counterpart of `PushItemsMarks` on the record table |
| SyncViewModel.MarkingMergesEachRecordRow | app/src/main/java/com/cipherxzc/clockinapp/ui/viewmodel/SyncViewModel.kt:135-136 | re-upserting the user's unsynced records, marked synced, yields `MarkedRecordRow` on every record row |
| SyncViewModel.PushItemsPurgesRecords | app/src/main/java/com/cipherxzc/clockinapp/ui/viewmodel/SyncViewModel.kt:120-121 | after a full item push exactly the records of the user's pushed item tombstones are gone; no surviving record changes |
| SyncViewModel.PushRecordsItemEffect | app/src/main/java/com/cipherxzc/clockinapp/ui/viewmodel/SyncViewModel.kt:135-136 | every pushed record touches its own item and a live one bumps it; after a full push each item's counter rises by its pushed live records, and each item a pushed record names is re-stamped and unsynced |
| SyncViewModel.PushSingleRecord | app/src/main/java/com/cipherxzc/clockinapp/ui/viewmodel/SyncViewModel.kt:124-137 | a lone dirty record whose write does not fail is pushed, and the local tables end as after upserting its synced copy at the marking clock |
| SyncViewModel.PushRecordBumpsCount | app/src/main/java/com/cipherxzc/clockinapp/ui/viewmodel/SyncViewModel.kt:135-136 | pushing a single live dirty record bumps its item's counter by one |
| SyncViewModel.Step | app/src/main/java/com/cipherxzc/clockinapp/ui/viewmodel/SyncViewModel.kt:57-71 | each step is its phase call on the current stores: a pull fails exactly when its query throws and otherwise replaces the local tables by its result; a push returns what its upload loop returned, with its stores. No step touches the flag, only the save (which cannot fail) touches the watermark, pulls never write remotely, and a failed step leaves the local tables as they were |
| SyncViewModel.RunPhases | app/src/main/java/com/cipherxzc/clockinapp/ui/viewmodel/SyncViewModel.kt:57-71 | the completed steps are a prefix of the list, in order; a run that never reached the save kept the old watermark |
| SyncViewModel.RunEndingInSave | app/src/main/java/com/cipherxzc/clockinapp/ui/viewmodel/SyncViewModel.kt:69-70 | a run that completes a list ending in the save holds the save-time reading as its watermark |
| SyncViewModel.RunWithoutFaults | app/src/main/java/com/cipherxzc/clockinapp/ui/viewmodel/SyncViewModel.kt:57-71 | with no remote failure every step runs |
| SyncViewModel.SaveOnlyLast | app/src/main/java/com/cipherxzc/clockinapp/ui/viewmodel/SyncViewModel.kt:61-70 | the save is in a prefix of the steps iff the prefix is all of them |
| SyncViewModel.PerformSync | app/src/main/java/com/cipherxzc/clockinapp/ui/viewmodel/SyncViewModel.kt:57-71 | pull items, pull records, push items, push records, save, in that order, stopping at the first failure. If all five completed the watermark becomes the save-time clock reading; otherwise it is kept. An undecodable watermark aborts before any step. The flag is untouched |
| SyncViewModel.Sync | app/src/main/java/com/cipherxzc/clockinapp/ui/viewmodel/SyncViewModel.kt:45-55 | a call while syncing does nothing; otherwise the final state is that of `performSync` run with the flag raised, with the flag lowered however it ended |
| SyncViewModel.RunFromPushRecords | app/src/main/java/com/cipherxzc/clockinapp/ui/viewmodel/SyncViewModel.kt:67-70 | the last two steps run as `pushUnsyncedRecords` then the save, the save only if the push returned |
| SyncViewModel.RunFromPushItems | app/src/main/java/com/cipherxzc/clockinapp/ui/viewmodel/SyncViewModel.kt:66-70 | from the item push on, the steps are `pushUnsyncedItems` and then the rest only if it returned |
| SyncViewModel.RunFromPullRecords | app/src/main/java/com/cipherxzc/clockinapp/ui/viewmodel/SyncViewModel.kt:63-70 | from the record pull on, the steps are `pullUpdatedRecords` and then the rest only if it returned |
| SyncViewModel.RunComposes | app/src/main/java/com/cipherxzc/clockinapp/ui/viewmodel/SyncViewModel.kt:62-70 | running the five phase labels step by step equals the phase-by-phase pass over `pullUpdatedItems`, `pullUpdatedRecords`, `pushUnsyncedItems`, `pushUnsyncedRecords` and the save, each on the stores the previous one left, stopping at the first that throws |
| SyncViewModel.PerformSyncComposes | app/src/main/java/com/cipherxzc/clockinapp/ui/viewmodel/SyncViewModel.kt:57-71 | a pass whose watermark decodes ends in exactly the stores, watermark and completed steps of the phase-by-phase pass from that watermark |
| SyncViewModel.SyncWithoutFaults | app/src/main/java/com/cipherxzc/clockinapp/ui/viewmodel/SyncViewModel.kt:45-71 | a fault-free sync ends with the local tables and remote store left by both pulls and both pushes in order, and the save-time watermark |
| SyncViewModel.SyncUploadsDirtyItems | app/src/main/java/com/cipherxzc/clockinapp/ui/viewmodel/SyncViewModel.kt:108-118 | after a fault-free sync, every item of the user that was dirty after the pulls is in the remote store with its own write's clock reading |
| SyncViewModel.SyncMarksPushedItems | app/src/main/java/com/cipherxzc/clockinapp/ui/viewmodel/SyncViewModel.kt:108-121 | after a fault-free sync, a live item that was dirty after the pulls is stored synced with its other fields unchanged, unless a pushed record names it |
| SyncViewModel.SyncRedirtiesRecordOwners | app/src/main/java/com/cipherxzc/clockinapp/ui/viewmodel/SyncViewModel.kt:124-137 | after a fault-free sync, an item that a pushed record names is dirty again, since `upsertRecord` stamps the owning item |
| SyncViewModel.FirstSyncPullsFromEpoch | app/src/main/java/com/cipherxzc/clockinapp/ui/viewmodel/SyncViewModel.kt:57-71 | with no stored watermark and no failures, a sync completes every step and stores the save-time watermark |
| ItemListViewModel.BeginLoad | app/src/main/java/com/cipherxzc/clockinapp/ui/viewmodel/ItemListViewModel.kt:47 | the loading flag goes up before anything is published |
| ItemListViewModel.FinishLoad | app/src/main/java/com/cipherxzc/clockinapp/ui/viewmodel/ItemListViewModel.kt:48-56 | both lists are published from `getAllItems()`, clocked-in and not clocked-in items respectively, together holding every item; then the flag goes down |
| ItemListViewModel.LoadItems | app/src/main/java/com/cipherxzc/clockinapp/ui/viewmodel/ItemListViewModel.kt:45-58 | after loading, the flag is down, the dialog flag is untouched, and the two lists hold `getAllItems()` between them |
| ItemListViewModel.LoadKeepsOrder | app/src/main/java/com/cipherxzc/clockinapp/ui/viewmodel/ItemListViewModel.kt:51-52 | both lists keep the relative order of `getAllItems()` |
| ItemListViewModel.LoadShowsEachItemOnce | app/src/main/java/com/cipherxzc/clockinapp/ui/viewmodel/ItemListViewModel.kt:51-52 | every item is in exactly one of the two lists |
| ItemListViewModel.MutateThenReload | app/src/main/java/com/cipherxzc/clockinapp/ui/viewmodel/ItemListViewModel.kt:60-90 | an action keeps the mutated backend state and reloads both lists from it |
| ItemListViewModel.InsertItem | app/src/main/java/com/cipherxzc/clockinapp/ui/viewmodel/ItemListViewModel.kt:60-66 | exactly one `insertItem`, then the lists partition the new `getAllItems()` |
| ItemListViewModel.DeleteItem | app/src/main/java/com/cipherxzc/clockinapp/ui/viewmodel/ItemListViewModel.kt:68-73 | exactly one `deleteItem`, then reload |
| ItemListViewModel.ClockIn | app/src/main/java/com/cipherxzc/clockinapp/ui/viewmodel/ItemListViewModel.kt:78-83 | exactly one `insertRecord`, then reload |
| ItemListViewModel.Withdraw | app/src/main/java/com/cipherxzc/clockinapp/ui/viewmodel/ItemListViewModel.kt:85-90 | exactly one `deleteMostRecentRecord`, then reload |
| ItemListViewModel.ActionShowsBackendState | app/src/main/java/com/cipherxzc/clockinapp/ui/viewmodel/ItemListViewModel.kt:60-90 | after an action an item is in the clocked-in list iff the mutated backend reports it clocked in today |
| ItemListViewModel.ShowDialog | app/src/main/java/com/cipherxzc/clockinapp/ui/viewmodel/ItemListViewModel.kt:75 | sets the dialog flag, nothing else |
| ItemListViewModel.HideDialog | app/src/main/java/com/cipherxzc/clockinapp/ui/viewmodel/ItemListViewModel.kt:76 | clears the dialog flag, nothing else |
| ItemListViewModel.DialogTogglesAreIdempotent | app/src/main/java/com/cipherxzc/clockinapp/ui/viewmodel/ItemListViewModel.kt:75-76 | each toggle is idempotent and the last one decides |
| Lists.Partition | app/src/main/java/com/cipherxzc/clockinapp/ui/main/ClockInItemList.kt:377-386 | the one-pass append loop yields exactly `filter` and `filterNot` |
| MainItemList.GetFilteredItems | app/src/main/java/com/cipherxzc/clockinapp/ui/main/ClockInItemList.kt:364-391 | the user's visible items, split by "most recent record falls on today" into the clocked-in list and the rest, each the `filter`/`filterNot` of the listing, with one `today` for every item |
| MainItemList.FilteredItemsPartition | app/src/main/java/com/cipherxzc/clockinapp/ui/main/ClockInItemList.kt:371-386 | each visible item of the user lands in exactly one list; together they hold the listing |
| MainItemList.FilteredItemsKeepOrder | app/src/main/java/com/cipherxzc/clockinapp/ui/main/ClockInItemList.kt:378-386 | both lists keep the listing's order |
| ItemListMoves.MoveItem | app/src/main/java/com/cipherxzc/clockinapp/ui/ClockInItemList.kt:298-314 | the from-list loses its first element equal to the item (unchanged if none); the to-list is the old one with the updated item appended |
| ItemListMoves.MoveKeepsOrder | app/src/main/java/com/cipherxzc/clockinapp/ui/ClockInItemList.kt:304-306 | the remaining elements keep their relative order |
| ItemListMoves.MoveAbsentItemStillAppends | app/src/main/java/com/cipherxzc/clockinapp/ui/ClockInItemList.kt:298-314 | without a membership check, an absent item is still appended |

## Left out

- Concurrency: coroutines, dispatchers, the non-atomic check-then-set of `isSyncing`, and user writes racing a sync pass. `sync` is modelled as one sequential call.
- I/O: Room, SharedPreferences and Firestore are maps and fields. Local-store errors are not modelled; every local call returns normally.
- Remote failures: only the failures the pass reacts to are modelled. These are a failing query `get()` and a failing `set` at a given position. The pass's exception propagates out of `performSync`, which is modelled by the run stopping.
- `toObject` failures: a document that fails to deserialise is dropped by `mapNotNull` (SyncViewModel.kt:82 and :99). The model deserialises every remote document. Neither entity gives its `itemId`/`recordId`, `userId`, `itemId` or `name` a default (ClockInItem.kt:10-12, ClockInRecord.kt:10-12), so neither class has the no-argument constructor Firestore's `toObject` requires. If so, every pulled document throws, is caught and is dropped, and a pull never changes the local tables. That reading rests on library behaviour and was not established here; the model follows the evident intent.
- Remote store shape: each item document's `itemId` field equals its path id, and each record document's `recordId` equals its path id. The collection group is keyed by record id, so two record documents with one id under different items are not modelled.
- Precision: Firestore's microsecond storage precision is not modelled.
- Query order: SQL queries without `ORDER BY`, and Firestore queries, are modelled in ascending id order. Ties in `ORDER BY timestamp DESC` are broken by id (a stable sort over the id-ordered rows).
- `getCurrentUser`, `getAllItems`, `isClockedInToday`, `insertItem`, `deleteItem`, `insertRecord` and `deleteMostRecentRecord` of `DatabaseViewModel` are parameters (`ItemListViewModel.Backend`): ui/viewmodel/DatabaseViewModel.kt is not part of this model.
- `getFilteredItems` calls `getMostRecentRecordByItem`, which the record DAO does not declare. It is modelled as `getMostRecentRecord`. The record's local date is the parameter `dayOf`.
- `moveItem` mutates the moved object through `updateItem`. The model appends an updated copy, so aliasing of the same object elsewhere is not modelled.
- Id generation (`generateDocumentId`) is a parameter, with no freshness assumption.
- `ZoneId.systemDefault()` day boundaries are given as start and end millis.
- `LocalRepository.insertDefaultData` is constant seed data plus a time-zone conversion.
- CloudRepository.kt is not used by the sync path.
- The older data layer (data/ClockInItem.kt, data/ClockInItemDao.kt, data/ClockInRecord.kt, data/ClockInRecordDao.kt, data/AppDataBase.kt) does not form one program with the current one.
- The Compose UI, navigation, authentication and `ItemDetailViewModel` are rendering and state plumbing.
- `LocalRepository.IncrementClockInCount`: does not model Kotlin `Int` wrap-around at 2^31 − 1; the counter is an unbounded integer.
- `LocalRepository.DecrementClockInCount`: does not model wrap-around at −2^31, for the same reason.
- `SyncViewModel.DecodeWatermark`: does not model the `Timestamp` constructor's seconds range check (years 1 to 9999); only the negative-nanoseconds rejection is modelled.
- `DbConverters.ToTimestamp`: does not model the same seconds range check in `Timestamp(Date)`.
- `Entities.NewRecord`: takes one clock reading for both `timestamp` and `lastModified`. The constructor's defaults call `Timestamp.now()` twice (ClockInRecord.kt:13-14), so the two may differ by the time between the reads.
- `LocalRepository.DeleteRecord`: takes one clock reading. `deleteRecord` reads `Timestamp.now()` up to three times: the record's `modify` (LocalRepository.kt:146 → :51), the increment inside `insertOrUpdateRecord` (:128 → :84 → :41) and the decrement (:149 → :93 → :41). The record and its item may therefore carry stamps a moment apart. `DeleteMostRecentRecord` and `UpsertRecord` (whose tombstone branch is `deleteRecord`) share this simplification.
- `LocalRepository.UpsertItems` and `LocalRepository.UpsertRecords`: `upsertItems`/`upsertRecords` are called but not defined in LocalRepository.kt. Each is modelled as a left-to-right fold of the single upsert, sharing one clock reading.

## Findings

| source | as written | input that shows it | evidently intended | confidence | as-written member | corrected member |
|---|---|---|---|---|---|---|
| app/src/main/java/com/cipherxzc/clockinapp/data/repository/LocalRepository.kt:130 | `insertOrUpdateRecord(record)` calls itself instead of the DAO, with no base case, so the call never completes | any record: `insertRecord(u, i)` with any ids (each nested call also bumps the counter again when the record exists) | `recordDao.insertOrUpdate(record)` | high, not executed | LocalRepository.AsWrittenNeverReturns | LocalRepository.InsertOrUpdateRecord |

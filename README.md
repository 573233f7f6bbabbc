# ep-engine storage core in Dafny

This project models the sequential core of the eventually-persistent storage
engine ("ep-engine") and proves properties of it. It covers four parts.

- **The in-memory record and its hash table** (`stored-value.hh`).
  - `StoredValue` comes in a small layout (key only) and a featured layout (CAS, expiry, a lock with lazy expiry, a resident flag).
  - Each record also carries a dirty flag and a 30-bit coarsened dirty time, plus a row-id state: none (-1), pending (-2), or assigned (> 0).
  - `HashTable` is an array of buckets. Each bucket heads a chain of records, and a deterministic string hash picks the bucket and stripe lock.
  - Its operations are `set`, `add`, `softDelete`/`unlocked_softDelete`, `unlocked_del`/`del`, `unlocked_find`/`find` and `addUnlessThere`.
  - There are two statistics visitors: `HashTableStatVisitor` and `HashTableDepthStatVisitor`.
- **The row-id chunk planner for vbucket deletion** (`ep.hh`).
  - `VBDeletionChunkRangeList` is an ordered list of closed row-id ranges with guarded `add`, `splitChunkRange`, `mergeChunkRanges`, `findClosestChunkByRangeSize` and `removeChunkRanges`.
  - `VBucketDeletionVisitor` collects row ids into a sorted set and cuts them into chunks.
- **The flusher's transaction state** (`ep.hh`): the inline members of `TransactionContext`, and `shouldPreemptFlush`.
- **The storage-backend factory** (`kvstore.cc`): the strategy names both ways, `stringToCharPtr`, and the decision `create` makes from the configuration.

How it is modelled:
- Every public hash-table operation runs entirely under one stripe lock. Each is therefore one method of the class `HashTables.HashTable`, which holds an `array<seq<StoredValue>>` of chains, head first.
- Each method is proved to leave its key's bucket exactly as a pure function of module `HashChains` says (`SetInChain`, `AddInChain`, `SoftDeleteInChain`, `DelInChain`, `AddUnlessThereInChain`). It is also proved to touch no other bucket.
- Each method keeps the table invariant:
  - every record sits in the bucket its key hashes to and has the table's layout;
  - `numItems` counts the records;
  - a ghost counter `charged` equals the summed `size()` of the records, standing in for the memory accountant.
- Lemmas about the chain functions state each operation's outcome ladder.
- The chunk-range list is a class over a sequence, and an iterator is an index, with the length standing for `end()`. Its methods are proved equal to functions on the old list, and lemmas state ordering, coverage and shape.

Clocks and external answers are inputs:
- `ep_real_time()` (expiry) and `ep_current_time()` (locks, dirtiness) are passed in as `Clocks`.
- The CAS that `Item::setCas` hands out is the parameter `freshCas`.
- The accountant's `hasAvailableSpace` is the boolean `spaceAvailable`.

Behaviours of the code reproduced as written:
- `set` of an absent key without CAS inserts the record yet returns `NOT_FOUND`: the result variable is never reassigned on that path (`HashChains.SetInserts`).
- `set` of an EXPIRED record without CAS also takes the insert path. It prepends a new record and leaves the expired one behind it, so a key can occur twice in a chain (`HashChains.SetOnExpiredShadowsOldRecord`). For that reason the model claims no key-uniqueness invariant.
- `unlocked_softDelete` answers `NOT_FOUND`, not `INVALID_CAS`, on a CAS mismatch (`HashChains.SoftDeleteStaleCas`). On the small layout, `addUnlessThere` with a delete operation and a nonzero CAS therefore leaves the restored record live (`HashChains.RestoredDeleteIsTombstone`).
- `hasId` means `id > 0`, so id 0 also counts as "no id".
- The chunk list's `add` accepts a range that starts exactly where the last one ends.
- Below the head, `unlocked_del` tests whether the PREDECESSOR is deleted before looking at the victim's lock. Behind a tombstone, a locked record is therefore removed (`HashChains.DelBehindTombstoneIgnoresLock`).
- `active()` assigns `true` instead of comparing, so it always holds (`HashTables.HashTable.Active`).

## Model

| member | source | states |
|---|---|---|
| StoredValues.MarkDirty | stored-value.hh:78-81 | the record becomes dirty; its data age (`dirtiness << 2`) is the current clock rounded down to a multiple of 4; nothing else changes |
| StoredValues.ReDirty | stored-value.hh:91-95 | dirty as of the given data age (rounded down to a multiple of 4); a pending id becomes -1, any other id is kept; nothing else changes |
| StoredValues.MarkClean | stored-value.hh:104-109 | the record becomes clean and its reported data age is unchanged; nothing else changes |
| StoredValues.SetExptime | stored-value.hh:198-203 | no-op on the small layout; on the featured layout the expiry becomes the given time and the record is dirty as of the current clock; nothing else changes |
| StoredValues.SetCas | stored-value.hh:312-316 | no-op on the small layout; on the featured layout `getCas` then answers the new CAS; nothing else changes |
| StoredValues.Lock | stored-value.hh:323-328 | no-op on the small layout; on the featured layout locked with the given expiry; nothing else changes |
| StoredValues.Unlock | stored-value.hh:333-338 | no-op on the small layout; on the featured layout unlocked with lock expiry 0; nothing else changes |
| StoredValues.IsLocked | stored-value.hh:434-444 | reports held exactly when the featured lock flag is set and the time is not past its expiry; an expired lock's flag is cleared and nothing else changes; otherwise the record is unchanged |
| StoredValues.IncrementNumReplicas | stored-value.hh:223-225 | the 8-bit replica counter grows by the count modulo 256; nothing else changes |
| StoredValues.SetId | stored-value.hh:365-369 | from a record without id (id <= 0) to one with the given positive id; nothing else changes |
| StoredValues.ClearId | stored-value.hh:374-377 | id -1: neither an id nor pending; nothing else changes |
| StoredValues.SetPendingId | stored-value.hh:394-398 | from no id and not pending to pending (-2); nothing else changes |
| StoredValues.ClearPendingId | stored-value.hh:403-407 | only the pending id -2 turns into -1; every other id is kept |
| StoredValues.Pad | stored-value.hh:419-422 | the alignment padding is 1 to 8 bytes and brings the length to a multiple of 8 |
| StoredValues.SetValue | stored-value.hh:237-250 | live, resident, dirty, replicas 0, the new flags and value (so `valLength` is its length); on the featured layout the given CAS and expiry, lock untouched; key and id kept |
| StoredValues.Del | stored-value.hh:467-480 | deleted, dirty, `valLength` 0; on the featured layout the CAS grows by one modulo 2^64 and nothing else of the layout changes; key, id, flags kept; `size()` does not grow |
| StoredValues.DeletedIsSmaller | stored-value.hh:414-426 | dropping the value handle never increases `size()` |
| StoredValues.NewStoredValue | stored-value.hh:519-543 | a fresh record is live, resident, never locked, with no replicas and the item's key, value, id and flags; featured: the item's CAS and expiry; dirty as of now or clean as requested |
| StoredValues.Make | stored-value.hh:747-759 | the factory builds exactly the `newStoredValue` record for the item, on the small layout exactly when its type is small; the table's `set`, `add` and `addUnlessThere` build their new records through it with the table's layout |
| StoredValues.SmallLayoutIsInert | stored-value.hh:289-338 | on the small layout CAS and expiry read 0, it never expires, `setCas`/`setExptime`/`lock`/`unlock` are no-ops, `isLocked` is false and it is resident |
| StoredValues.LockHeldUntilExpiry | stored-value.hh:434-444 | after `lock(e)` on the featured layout, `isLocked(t)` holds at every `t <= e` and changes nothing |
| StoredValues.ClearedLockIsUnobservable | stored-value.hh:438-441 | the lock flag `isLocked` clears is invisible to every later lock check |
| StoredValues.ExpiredMeansFeaturedExpiry | stored-value.hh:131-136 | `isExpired(asOf)` holds iff the record is featured with a nonzero expiry before `asOf` |
| StoredValues.RowIdLifecycle | stored-value.hh:345-407 | none to pending to assigned, and cleared back to none; clearing or re-dirtying a pending id gives -1; clearing pending leaves an assigned id alone |
| HashChains.HashStepMultipliesBy33 | stored-value.hh:1143-1145 | one hash step is `h * 33 ^ c` in 32-bit arithmetic |
| HashChains.ToInt32 | stored-value.hh:1139-1148 | the 32-bit hash read as a signed int lies in [-2^31, 2^31) and is non-negative iff the top bit is clear |
| HashChains.CRem | stored-value.hh:1350-1352 | C's remainder: magnitude below the divisor, sign of the dividend |
| HashChains.BucketForHash | stored-value.hh:1350-1352 | `abs(h % size)` lies in [0, size) and equals `abs(h) mod size` |
| HashChains.MutexForBucket | stored-value.hh:1354-1361 | the lock of a non-negative bucket lies in [0, n_locks) |
| HashChains.BucketForKey | stored-value.hh:1168-1177 | every key maps to a bucket in [0, size) |
| HashChains.FirstIndexOf | stored-value.hh:1115-1129 | the position of the first record with the key (no earlier record has it), none iff no record has it |
| HashChains.FirstIndexIsUnique | stored-value.hh:1115-1129 | a position holding the key with no earlier record holding it is the one lookups return |
| HashChains.FirstIndexAfterUpdate | stored-value.hh:1115-1129 | rewriting a record without changing its key moves no lookup |
| HashChains.FindInChain | stored-value.hh:1115-1129 | `unlocked_find`: the first record with the key; null iff there is none or it is a tombstone and deleted records are not wanted |
| HashChains.SetWithoutSpace | stored-value.hh:942-944 | no room: `NOMEM` and nothing changes |
| HashChains.SetWithCasOnExpired | stored-value.hh:958-962 | expired record and a nonzero CAS: `NOT_FOUND`, nothing changes |
| HashChains.SetOnLockedRecord | stored-value.hh:970-977 | locked record and a different CAS: `IS_LOCKED`, nothing changes |
| HashChains.SetWithStaleCas | stored-value.hh:980-981 | unlocked record and a nonzero different CAS: `INVALID_CAS`; value and CAS kept, other records untouched, only an expired lock flag is cleared, which no later check can see |
| HashChains.SetWithCasOnAbsent | stored-value.hh:994-996 | absent key and a nonzero CAS: `NOT_FOUND`, nothing changes |
| HashChains.SetOverwrites | stored-value.hh:969-992 | past the lock and CAS checks the record is rewritten in place: `WAS_DIRTY`/`WAS_CLEAN` from its prior state, the row id reported, new value, flags and fresh CAS, unlocked, found by lookups; the non-resident count drops by one for an ejected record |
| HashChains.SetPrepends | stored-value.hh:993-1003 | absent or expired key without CAS: the outcome is exactly the new record prepended, `NOT_FOUND`, no row id |
| HashChains.SetInserts | stored-value.hh:993-1003 | absent or expired key without CAS: a new dirty record with the fresh CAS at the head, found by lookups, the rest kept; the result is still `NOT_FOUND` |
| HashChains.SetOnExpiredShadowsOldRecord | stored-value.hh:957-1001 | writing an expired key without CAS leaves the expired record in the chain behind the new one |
| HashChains.AddOnLiveRecord | stored-value.hh:1020-1021 | a live unexpired record: `ADD_EXISTS`, nothing changes |
| HashChains.AddWithoutSpace | stored-value.hh:1025-1027 | otherwise, no room: `ADD_NOMEM`, nothing changes |
| HashChains.AddRevives | stored-value.hh:1028-1037 | over a tombstone or expired record: reused in place with the new value and requested dirtiness, `ADD_UNDEL`, found by lookups |
| HashChains.AddFresh | stored-value.hh:1038-1042 | absent key: a new record at the head with the fresh CAS, `ADD_SUCCESS`, found by lookups |
| HashChains.SoftDeleteAbsent | stored-value.hh:1076-1078 | absent key or a tombstone first: `NOT_FOUND`, nothing changes |
| HashChains.SoftDeleteExpired | stored-value.hh:1079-1082 | an expired record is deleted whatever the CAS, and the answer is `NOT_FOUND` |
| HashChains.SoftDeleteLocked | stored-value.hh:1084-1086 | a locked record: `IS_LOCKED`, nothing changes |
| HashChains.SoftDeleteStaleCas | stored-value.hh:1088-1090 | a nonzero different CAS: `NOT_FOUND` and the value is kept |
| HashChains.SoftDeleteSucceeds | stored-value.hh:1092-1100 | otherwise prior cleanliness is reported and the record becomes a dirty unlocked tombstone with CAS + 1, in place; lookups then miss it unless they want tombstones |
| HashChains.TombstoneHidesKey | stored-value.hh:1115-1129 | a tombstone written where `find` found the key hides it from later lookups, except those that want deleted records, which find it in the same place |
| HashChains.SoftDeleteThenAddUndeletes | stored-value.hh:1028-1029 | a key soft-deleted successfully is revived by `add` with `ADD_UNDEL` |
| HashChains.DelAbsent | stored-value.hh:1213-1251 | no record with the key: nothing is removed |
| HashChains.DelAt | stored-value.hh:1223-1248 | for the first record with the key, the head's own deletion state, or below the head the predecessor's, together with the record's lock decides between refusing and unlinking it |
| HashChains.DelRemovesFirstMatch | stored-value.hh:1213-1251 | removal takes out exactly the first record with the key and keeps the rest in order; a refusal or an absent key changes nothing |
| HashChains.DelRefusesLockedHead | stored-value.hh:1223-1226 | a live locked record at the head is not removed |
| HashChains.DelBehindTombstoneIgnoresLock | stored-value.hh:1234-1244 | below the head, a locked record behind a tombstone is removed |
| HashChains.RestoredDeleteIsTombstone | stored-value.hh:905-930 | restoring a delete of an absent key adds one record at the head, a tombstone unless the layout is small and the CAS nonzero |
| HashChains.AddUnlessThereKeepsPresent | stored-value.hh:913-918 | a key with any record, even a tombstone, is left alone |
| HashTables.HashTable.constructor | stored-value.hh:801-812 | positive bucket and lock counts, all buckets empty, no items, nothing charged, active, with the process-wide default layout |
| HashTables.HashTable.Active | stored-value.hh:1332 | always answers true and leaves the table active |
| HashTables.HashTable.Hash | stored-value.hh:1139-1148 | the loop computes the fold of the hash step from 5381, read as a signed int |
| HashTables.HashTable.BucketFor | stored-value.hh:1168-1177 | the bucket of the key's hash |
| HashTables.HashTable.UnlockedFind | stored-value.hh:1115-1129 | the chain walk returns `FindInChain`'s answer |
| HashTables.HashTable.Find | stored-value.hh:891-896 | the live record with the key in its bucket, if any |
| HashTables.ScanForKey | stored-value.hh:1234-1248 | the `next` walk stops at the first record with the key, or at the end |
| HashTables.HashTable.Set | stored-value.hh:939-1004 | the key's bucket becomes `SetInChain`'s chain, result and row id as it says; item count and charge move by the bucket's change; other buckets untouched; invariant kept |
| HashTables.HashTable.SetLive | stored-value.hh:969-992 | the lock and CAS branch of `set`, as `SetInChain` says, chain length kept |
| HashTables.HashTable.SetNew | stored-value.hh:993-1002 | the insert branch of `set`: one more record, result `NOT_FOUND` |
| HashTables.HashTable.Add | stored-value.hh:1014-1049 | the bucket becomes `AddInChain`'s chain with its result; counts and charge follow; other buckets untouched |
| HashTables.HashTable.UnlockedSoftDelete | stored-value.hh:1074-1103 | bucket b becomes `SoftDeleteInChain`'s chain with its result and non-resident change |
| HashTables.HashTable.SoftDelete | stored-value.hh:1059-1069 | the row id of the live record found, if any, and `unlocked_softDelete` on the key's bucket |
| HashTables.HashTable.UnlockedDel | stored-value.hh:1213-1251 | bucket b becomes `DelInChain`'s chain; `numItems` drops by one exactly when a record was removed; the charge drops by its size |
| HashTables.HashTable.Del | stored-value.hh:1259-1264 | `unlocked_del` on the key's bucket |
| HashTables.HashTable.AddUnlessThere | stored-value.hh:905-930 | the bucket becomes `AddUnlessThereInChain`'s chain; `numItems` grows by one exactly when the record was added |
| TableStats.ResidentWithinTotal | stored-value.hh:677-686 | cache size never exceeds memory size, non-resident never exceeds total, and the sizes agree iff nothing is non-resident |
| TableStats.HashTableStatVisitor.constructor | stored-value.hh:674-675 | all counters zero, nothing visited |
| TableStats.HashTableStatVisitor.Visit | stored-value.hh:677-686 | the counters stay equal to the count, summed size, resident summed size and non-resident count of the records visited |
| TableStats.LeastIsMinimum | stored-value.hh:654 | the running minimum is a visited depth and bounds all of them from below |
| TableStats.GreatestIsMaximum | stored-value.hh:655 | the running maximum is a visited depth and bounds all of them from above |
| TableStats.GreatestWithinSum | stored-value.hh:655-657 | no depth exceeds the total depth |
| TableStats.FiguresAfter | stored-value.hh:650-657 | one more depth adds to the sum, lowers the minimum if smaller (or sets it when there was none) and raises the maximum if larger |
| TableStats.HashTableDepthStatVisitor.constructor | stored-value.hh:646-648 | size and memory 0, min -1, max 0 |
| TableStats.HashTableDepthStatVisitor.Visit | stored-value.hh:650-659 | size, memory, min (with -1 meaning none yet) and max stay the sum, minimum and maximum of the figures reported; afterwards `0 <= min <= depth <= max <= size` |
| TableStats.DepthFiguresAreBounds | stored-value.hh:650-665 | after any visit, min and max are visited depths bounding all the others, and max is at most the total |
| ChunkRanges.OrderedAcross | ep.hh:111-115 | in the sorted list every range ends no later than any later range starts |
| ChunkRanges.Added | ep.hh:133-138 | `add` keeps an ordered list ordered |
| ChunkRanges.AddAppendsIff | ep.hh:133-138 | a range is appended exactly when it is non-empty and starts at or after the last range's end (touching counts); otherwise nothing changes |
| ChunkRanges.SplitShape | ep.hh:157-166 | a real split gives [s, s+n] then [s+n+1, e] in place of [s, e], one more range, others untouched, still ordered |
| ChunkRanges.SplitKeepsCoverage | ep.hh:157-166 | splitting covers exactly the ids covered before |
| ChunkRanges.Closest | ep.hh:221-228 | the found position lies between the start and the end |
| ChunkRanges.ClosestIsFirstBeyond | ep.hh:221-228 | it is the first range from the start that ends beyond `first + n`, or the end |
| ChunkRanges.MergeNoOp | ep.hh:173-176 | at the end, or when the start range already spans n or more, the list is unchanged |
| ChunkRanges.MergeStraddling | ep.hh:173-196 | when the found range straddles `first + n`: the start range ends there, the found range resumes one past it, the ranges between are erased, the rest untouched |
| ChunkRanges.MergeBeforeGap | ep.hh:173-196 | when the found range begins beyond `first + n`: the start range absorbs up to its predecessor's end, the ranges between are erased, the found range and the rest untouched |
| ChunkRanges.MergeToTail | ep.hh:190-195 | when no range ends beyond `first + n`, the start range becomes the last and ends at the old last range's end |
| ChunkRanges.MergeWidensStart | ep.hh:173-196 | a merge keeps the ranges before the start, never shrinks the start range, never lengthens the list and keeps it ordered |
| ChunkRanges.MergeKeepsCoverage | ep.hh:173-196 | every id covered before a merge of an ordered list is covered after it |
| ChunkRanges.VBDeletionChunkRangeList.constructor | ep.hh:118 | an empty list |
| ChunkRanges.VBDeletionChunkRangeList.Add | ep.hh:128-138 | the list becomes `Added` of the old list and the range |
| ChunkRanges.VBDeletionChunkRangeList.SplitChunkRange | ep.hh:157-166 | the list becomes `Split` of the old one |
| ChunkRanges.VBDeletionChunkRangeList.FindClosestChunkByRangeSize | ep.hh:221-228 | the loop stops at the first range ending beyond `first + n`, every range passed ends within it |
| ChunkRanges.VBDeletionChunkRangeList.RemoveChunkRanges | ep.hh:206-212 | the list becomes `Removed` of the old one |
| ChunkRanges.VBDeletionChunkRangeList.MergeChunkRanges | ep.hh:173-196 | the list becomes `Merged` of the old one |
| DeletionVisitors.Insert | ep.hh:251-255 | set insertion keeps the ids strictly sorted, adds exactly the new id and grows only if it was absent |
| DeletionVisitors.ChunkCount | ep.hh:263-283 | for a positive chunk size there are ceil(n / chunk_size) chunks |
| DeletionVisitors.ZeroChunkSizeIsOneChunk | ep.hh:273-277 | with chunk size 0 the counter never matches, so all ids form one chunk |
| DeletionVisitors.ChunksOrdered | ep.hh:263-283 | the chunks of sorted ids are ordered, from the least id to the greatest |
| DeletionVisitors.ChunkEndsAreIds | ep.hh:263-283 | every chunk starts and ends at a collected id |
| DeletionVisitors.ChunksCover | ep.hh:263-283 | every collected id lies in some chunk |
| DeletionVisitors.AddAllAppends | ep.hh:273-277 | ordered ranges starting where the list leaves off are all accepted by `add`, in order |
| DeletionVisitors.VBucketDeletionVisitor.constructor | ep.hh:242-243 | an empty id set and the given chunk size |
| DeletionVisitors.VBucketDeletionVisitor.Visit | ep.hh:251-255 | the id set grows by the record's id exactly when it has one (id > 0) |
| DeletionVisitors.VBucketDeletionVisitor.CreateRangeList | ep.hh:263-283 | the loop adds the chunks of the sorted ids to the range list in order, then frees the id set |
| DeletionVisitors.RangeListFromIds | ep.hh:263-283 | on an empty list no chunk is refused: the list is exactly the chunks |
| Transactions.AsSizeT | ep.hh:339-341 | the signed counter read as `size_t`: equal if non-negative, else wrapped modulo 2^64 |
| Transactions.TransactionContext.constructor | ep.hh:303-306 | nothing remaining, not in a transaction, no callbacks, nothing uncommitted |
| Transactions.TransactionContext.Remaining | ep.hh:339-341 | the counter as `size_t` |
| Transactions.TransactionContext.CommitSoon | ep.hh:346-348 | the counter becomes 0, nothing else changes |
| Transactions.TransactionContext.GetTxnSize | ep.hh:353-355 | the transaction size |
| Transactions.TransactionContext.SetTxnSize | ep.hh:360-363 | the size becomes k and k is forwarded to the store; nothing else changes |
| Transactions.TransactionContext.GetNumUncommittedItems | ep.hh:367-369 | the uncommitted count |
| Transactions.TransactionContext.AddCallback | ep.hh:371-373 | the callback is appended after the earlier ones; nothing else changes |
| Transactions.CommitSoonZeroesRemaining | ep.hh:339-348 | after `commitSoon`, `remaining()` is 0 |
| Transactions.SetThenGetTxnSize | ep.hh:353-363 | after `setTxnSize(k)`, `getTxnSize()` is k and k is the last size forwarded |
| FlushPreemption.PreemptMonotone | ep.hh:924-928 | once due, preemption stays due as more updates complete |
| KVStoreFactory.TypeToString | kvstore.cc:90-112 | every strategy has a non-empty name |
| KVStoreFactory.TypeToStringInjective | kvstore.cc:84-88 | no two strategies share a name |
| KVStoreFactory.StringToTypeRoundTrip | kvstore.cc:84-130 | parsing a strategy's name gives back the strategy |
| KVStoreFactory.StringToTypeExact | kvstore.cc:114-130 | a name is accepted iff it is exactly one of the five names, and then it names the strategy returned |
| KVStoreFactory.StrategyFor | kvstore.cc:35-70 | every `db_type` gets a strategy object of its own kind, built from the configuration's database name, init and post-init files and shard pattern each passed through `stringToCharPtr` (NULL for an empty string), and from the configured shard and vbucket counts as they are |
| KVStoreFactory.ShardedStrategiesTakeShards | kvstore.cc:35-70 | the sharded strategies, and only they, get a shard count and a shard pattern; all but `multiDB` and `singleDB` get the vbucket count |
| KVStoreFactory.CreateOutcome | kvstore.cc:21-82 | NULL exactly for an unknown backend or an unknown SQLite strategy; couchdb gives the couch store; a SQLite store is built over the strategy of that name |

## Left out

- StoredValue mutators: the record is updated in place through `StoredValue*` in the source. Here it is a value, and each mutator returns the new record. Records are never shared between chains, so no aliasing is lost; the chain stores the returned record in the record's place.
- Locking: the stripe locks, `getLockedBucket`'s retry loop, `LockHolder` and the atomic counters are not modelled. Each operation is one atomic step.
- `active()` is modelled as a method of its own. The operations' `assert(active())` calls are not repeated in each method, because the flag is already true from construction.
- The memory accountant (`increaseCurrentSize`, `reduceCurrentSize`, `hasAvailableSpace`) has no body in the source. It is a ghost `charged` total plus the input `spaceAvailable`. The `residentOnly` split of the charge is not modelled.
- `add` with `storeVal` false calls `ejectValue`, whose body is not in the source. `ejectValue`, `restoreValue`, `resize`, `clear`, `visit` and `visitDepth` (the table walks) are likewise not part of this model.
- HashTables.HashTable.Add: the `storeVal` parameter is not modelled; the method always stores the value.
- `numNonResidentItems` is a plain counter moved by the operations' deltas. No invariant ties it to the records, as in the source.
- `TransactionContext::enter`, `leave`, `commit` and `addUncommittedItem`: only their declarations are in the source, so they are not modelled.
- `HashTableDepthStatVisitor`'s depth histogram uses floating-point bucket widths and is not modelled.
- TableStats.HashTableDepthStatVisitor.Visit: depths and memory figures are non-negative (`nat`); the source's `int`/`size_t` overflow is not modelled.
- The chunk-range arithmetic (`first + range_size`, `it->second + 1`) and the stats counters are unbounded integers. 64-bit overflow is not modelled.
- `hash` is modelled with 32-bit two's-complement wrap-around. The source's `int` overflow is, strictly, undefined behaviour in C++.
- HashTables.HashTable.constructor and HashChains.BucketForHash: the bucket and lock counts are assumed below 2^31. In that range the `static_cast<int>` narrowing in `getBucketForHash` and `mutexForBucket` changes nothing. Larger `size_t` counts, where the cast would wrap, are not modelled.
- Sizes assume the LP64 layout: 8-byte words, a 16-byte value handle, and fixed parts of 49 (small) and 71 (featured) bytes.
- Raw memory layout is not modelled: placement `new`, the key bytes copied by `memcpy`, and the 4-byte length placeholder written by `ejectValue`.
- ChunkRanges.VBDeletionChunkRangeList.RemoveChunkRanges: called with `first` not after `last`, which is what the source's iterators guarantee at its only call site. The case where `last` precedes `first` is not modelled.
- The strategy constructors and `MCKVStore` inside `create` are represented only by the arguments they are given. The warning log lines are not modelled.
- The flusher, background fetches, dispatchers, TAP and warm-up, and the rest of `EventuallyPersistentStore`, are not part of this model; `shouldPreemptFlush` reads only the three fields it uses.
- The management scripts, the test stubs, `command_ids.h` and `mc-kvstore/mc-debug.hh` hold no core logic and are not part of this model.

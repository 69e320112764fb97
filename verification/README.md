# Verified model of the store layer and the stratum bridge

This project models two parts of the node and proves what they are for.

- **The cached key/value layer** (`database/src`). A bounded cache with random eviction, a typed
  store that serves an old and a new on-disk layout under one logical key, a single item that
  migrates its legacy row when it is read, and set stores whose cached sets must equal a key range
  on disk. The theorems say that each of them is, for every sequence of operations, direct or
  batched, and every choice of evictions, a plain map, a single cell, or a map of sets.
- **The stratum bridge's submit pipeline** (`bridge/src`). The job ring and the backward search
  through it, the two duplicate guards under concurrent use, share accounting, variable difficulty,
  the hand-off of a socket's write half, line framing, and the encodings of headers, jobs and
  nonces.

Code that updates state in place is a class or a method here and is proved to take the steps of a
value-level model; the theorems over runs are about that model. Concurrent code is a state machine
over atomic steps of any number of tasks. `dafny verify dfyconfig.toml` checks everything.

## How it is laid out

| files | what they hold |
|---|---|
| `wrappers`, `sequences`, `bytes`, `keys`, `codec`, `database` | results, sequences, byte order and prefix ranges, row keys, an encoder with its decoders, RocksDB as a map with batches and writers |
| `cache`, `kv_store`, `access` | the cache; the store's model and theorems; `CachedDbAccess` |
| `item`, `set_store`, `set_access` | the single item; set stores, their model and their classes |
| `submit_guard`, `submit_runs`, `block_runs` | the guards, concurrent share submissions, concurrent block submissions |
| `guard_instants`, `share_instants` | what instants out of order do to the two guards |
| `job_ring`, `share_stats`, `submit_pipeline`, `submit_accounting` | the ring and the search, the counters, one submission from end to end, guard and counters under many |
| `vardiff`, `write_half`, `line_framing` | difficulty, the write half, the line reader |
| `endian`, `hex`, `header_stream`, `job_params`, `extranonce` | numbers as bytes and text, headers, jobs, nonces |

## What callers owe

The stores are right under the conditions that the code states or relies on, and each is a
predicate of the model (`Admissible`, `Config.Valid`): keys have one length; no other store writes
under the prefix; the prefix has a byte below 0xFF; a versioned write meets no old row of its key
(`has` before `write`); no row is written directly while an open batch touches it too; and no key is
read past the cache while an open batch bears on it. Other writes past an open batch, by this store
or another, are part of the runs. For the `has` guard and for the read while a batch is open, a lemma
says exactly when the condition is needed.

## What turned out otherwise

- A write over a legacy row without the `has` guard is lost to later reads: `KvModel.UnguardedWrite`,
  `KvModel.UnguardedWriteExample`.
- Reading a staged key past the cache can leave an outdated value in it: `KvModel.ReadWhileStaged`,
  `KvModel.ReadWhileStagedExample`.
- The documentation of `CachedDbItem` says that a legacy fallback migrates the row. Only `read` does:
  `update` writes the live row and leaves the legacy one, which a removal that stops half-way
  uncovers: `ItemModel.RemoveInterrupted`, `ItemModel.UpdateIsUncovered`.
- A batched removal is undone by a restart before its commit: `ItemModel.BatchedRemoval`.
- `max_entries` bounds the guards when they prune, not between calls; they can hold one more:
  `SubmitGuards.BlockGuardOverfull`, `SubmitGuards.ShareGuardOverfull`, and an example of each.
- `submit_block` means to keep the mark of a block that the node calls a duplicate. It looks at the
  text of an error that was given a context before, and that shows the context only, so every error
  takes the mark back: `BlockRuns.MarkStaysIffAccepted`.
- The guards' callers take the time before the lock. With instants out of order two marks of one
  hash, or two evaluations of one share, can be closer than the TTL:
  `GuardInstants.EarlyMarksExactly`, `ShareInstants.EarlyEvaluationsExactly`, and an example of each.
- A block that is marked again after a removal can be evicted before blocks marked earlier:
  `GuardInstants.MarkTakesTurn`, `GuardInstants.RemarkedGoesFirst`.
- One nonce in two spellings is two submissions: `SubmitPipeline.SpellingDecides`,
  `SubmitPipeline.SpellingExample`.
- A miner that sends more than 12 digits is not held to its share of the nonces:
  `Extranonce.OwnShare`, `Extranonce.LongNonceCollides`.
- A disconnect that finds the write half in a writer's hands does not close it, and no later write
  or disconnect does; the socket closes when the last handle to the context is dropped: `WriteHalf.DisconnectCloses`, `WriteHalf.LeftOpen`, `WriteHalf.StaysOpen`.
- A first read of just `SM` is refused although its line may go on: `LineFraming.ChunkingExactly`.
- A submitted job id of 0 makes the search count below zero, which panics, as release builds check
  for overflow: `JobRing.JobZero`, `JobRing.JobZeroExample`. The share stays in flight, and repeats
  of it are told yes: `SubmitPipeline.CrashedRepeat`, `SubmitRuns.CrashIsInFlight`.
- A comment says that the nonce is padded on the right; the code pads it on the left, and the model
  follows the code: `Extranonce.CombinedNonce`.
- A comment says that a search that runs out of jobs records a bad share; the code records a
  low-difficulty one: `JobRing.Search`.

## Model

| member | source | states |
|---|---|---|
| `KvModel.RunRefines` | database/src/access.rs:93-432 | Over every run of `has`, `read`, guarded insertions, deletions, `write_many`, `delete_all`, other stores' writes and commits, each into the open batch or past it, from rows in either layout and for every choice of evictions: each reply is that of one plain map, and the rows to be and the cache still stand for that map. |
| `KvModel.StepRefines` | database/src/access.rs:93-432 | One operation is one step of the map: the map's reply, and an invariant that ties the rows on disk, the rows after the batch, and the cache to it. |
| `KvModel.RunKeepsOneRow` | database/src/access.rs:146-155 | In no state of any run do two rows, in whichever layout, belong to one logical key, and every row under the prefix has one of the two shapes. |
| `KvModel.OneRowPerKey` | database/src/access.rs:146-155 | Rows that stand for a map hold one row per logical key. |
| `KvModel.CacheMatchesDiskAfterCommit` | database/src/access.rs:325-432 | Right after a commit, anywhere in a run, each cached value is what the database decodes to for its key, whatever was staged in whatever order and whatever was evicted. |
| `KvModel.DiskAgrees` | database/src/access.rs:93-240 | Both kinds of existence check and both kinds of read, by scan or by lookup, answer exactly as the map does. |
| `KvModel.MutationsCommute` | database/src/access.rs:325-432 | Writing rows and changing the map commute for every sequence of guarded puts, deletes of both layouts and range deletes. |
| `KvModel.SetRepresents` | database/src/access.rs:325-334 | A guarded write puts exactly its key's value into the map the rows stand for, and leaves every other key's row alone. |
| `KvModel.UnsetRepresents` | database/src/access.rs:411-420 | Clearing both layouts removes exactly one key from the map. |
| `KvModel.ClearRepresents` | database/src/access.rs:423-432 | The range delete over the prefix leaves the empty map. |
| `KvModel.RowsAreDistinct` | database/src/access.rs:396-405 | Different logical keys never share a row in either layout, and a key's old row is a proper prefix of its new one. |
| `KvModel.RepresentsUnique` | database/src/access.rs:146-155 | The rows determine the map. |
| `KvModel.UnstagedAgrees` | database/src/access.rs:325-432 | A key that the pending batch does not bear on has the same value before and after the commit. |
| `KvModel.LegacyRowComesFirst` | database/src/access.rs:188-240 | A row of the old layout is what the scan meets first, so it is what a read returns. |
| `KvModel.ReadIsFromOwnRow` | database/src/access.rs:161-187 | Whatever is on disk, a versioned read returns a value only from the key's old row or, failing that, its new one: a row with another version byte or another length is never decoded into a value. |
| `KvModel.ReadMisses` | database/src/access.rs:188-240 | A versioned read reports a missing key if and only if no row starts with the key's path. |
| `KvModel.ReadErrors` | database/src/access.rs:161-187 | By the first row of the scan: inconsistent data if and only if it is in neither layout (another length or another version byte), a decoding error if and only if it is in one and its bytes do not decode. |
| `KvModel.UnguardedWrite` | database/src/access.rs:146-155 | A write without the `has` guard is what an uncached read then finds if and only if the key had no old row, or one with that very value: otherwise the old row hides it. |
| `KvModel.UnguardedWriteExample` | database/src/access.rs:146-155 | One store in which a write of 2 over an old row of value 1 leaves reads at 1. |
| `KvModel.ReadWhileStaged` | database/src/access.rs:120-140 | Reading a key past the cache while mutations are staged keeps the cache right, for every eviction, if and only if the key is not on disk, or nothing staged bears on it, or the last that does writes the value that is on disk. |
| `KvModel.ReadWhileStagedExample` | database/src/access.rs:120-140 | One store in which such a read leaves 1 cached after the commit has put 2 on disk. |
| `KvModel.WriteWhileStaged` | database/src/access.rs:325-334 | A direct write of a key while mutations are staged leaves a cache that is right after the commit, for every eviction, if and only if nothing staged bears on the key or the last that does writes the same value. |
| `KvModel.LastDecides` | database/src/access.rs:325-432 | Of a sequence of mutations the last that bears on a key decides the key. |
| `KvModel.ForeignRefines` | database/src/writer.rs:36-93 | Another store's writes, into the open batch or past it, change neither what the rows stand for nor what they will. |
| `CachedAccess.CachedDbAccess.Has` | database/src/access.rs:93-118 | Takes the model's `Has` step: cache, then prefix scan on a versioned store, then lookup. |
| `CachedAccess.CachedDbAccess.Read` | database/src/access.rs:120-140 | Takes the model's `Read` step, caching what it decodes. |
| `CachedAccess.CachedDbAccess.ReadVersioned` | database/src/access.rs:188-240 | Decodes the first row of the scan by the length of its key: old layout, new layout with the right version byte, or an error. |
| `CachedAccess.CachedDbAccess.Write` | database/src/access.rs:325-334 | Cache and rows (or batch) change as the model's single `Set` says. |
| `CachedAccess.CachedDbAccess.Insert` | consensus/src/model/stores/utxo_diffs.rs:61-87 | How an owning store inserts, directly or into a batch: refused if `has` finds the key, else written. |
| `CachedAccess.CachedDbAccess.WriteMany` | database/src/access.rs:336-352 | Cache and rows change as all the `Set`s in order say. |
| `CachedAccess.CachedDbAccess.WriteManyWithoutCache` | database/src/access.rs:354-371 | The same rows, and an empty cache. |
| `CachedAccess.CachedDbAccess.DeleteBothLayouts` | database/src/access.rs:411-420 | Emits a delete for each layout that the store can have. |
| `CachedAccess.CachedDbAccess.Delete` | database/src/access.rs:373-379 | Takes the model's `Unset` step. |
| `CachedAccess.CachedDbAccess.DeleteMany` | database/src/access.rs:381-391 | Takes the model's step for all the `Unset`s in order. |
| `CachedAccess.CachedDbAccess.DeleteAll` | database/src/access.rs:423-432 | Takes the model's `Clear` step. |
| `Bytes.PrefixRangeExact` | database/src/access.rs:157-160 | The bounds of a prefix range hold exactly the keys that start with the prefix. |
| `Bytes.NextPrefixExists` | database/src/access.rs:428-430 | The upper bound, which the code unwraps, exists if and only if the prefix has a byte below 0xFF. |
| `Bytes.FindFirst` | database/src/access.rs:197-210 | The first row of a prefix scan in key order, or none if no key starts with the prefix. |
| `Database.ApplyFrame` | database/src/writer.rs:71-93 | A row that no operation of a batch touches is as it was before the batch. |
| `Database.ApplyLocal` | database/src/writer.rs:71-93 | What a batch makes of a row depends on that row only. |
| `Database.ApplyCommutes` | database/src/writer.rs:71-93 | Two lists of operations that touch no common row may be applied in either order. |
| `Database.EmitFuture` | database/src/writer.rs:36-93 | A direct write that touches no row of an open batch has, after the commit, the effect it would have had inside it. |
| `Database.Db.Write` | database/src/writer.rs:49-56 | Applying a batch step by step is applying its operations in order. |
| `Database.Writer.Put` | database/src/writer.rs:36-93 | A direct writer applies the put at once, a batch writer appends it. |
| `Database.Writer.Delete` | database/src/writer.rs:45-84 | A direct writer applies the delete at once, a batch writer appends it. |
| `Database.Writer.DeleteRange` | database/src/writer.rs:49-92 | A direct writer applies the range delete through a batch of its own, a batch writer appends it. |
| `Caching.Cache.TrackedEvict` | database/src/cache.rs:61-68 | Evicts arbitrary entries, but no more than it must: what is left is within the limits, and unless nothing went, the last entry to go had to; the tracked size stays the sum of the sizes and never goes below zero. |
| `Caching.Cache.InsertInner` | database/src/cache.rs:70-84 | Keeps the cache's invariant (tracked size, size or item bound, count bound) and is exactly the insertion of its policy. |
| `Caching.Cache.Insert` | database/src/cache.rs:156-162 | As above; a cache of size zero stays empty; the result is part of what an unbounded map would hold. |
| `Caching.Cache.InsertMany` | database/src/cache.rs:164-172 | Inserts each pair in its turn, by the policy; so part of what inserting all pairs in order into an unbounded map gives. |
| `Caching.Cache.RespectsPolicy` | database/src/cache.rs:8-68 | In the policy's own words: an empty cache holds nothing, a counting one at most its maximum, a tracking one at most its size or at most its minimum of items; the tracked size is the sum of the sizes. |
| `Caching.CountKeeps` | database/src/cache.rs:78-83 | An insertion into a counting cache keeps the new entry, everything while there is room, and all but one entry when full. |
| `Caching.TrackedKeeps` | database/src/cache.rs:70-77 | An insertion into a tracking cache keeps everything while all of it fits. |
| `Caching.Cache.UpdateIfEntryExists` | database/src/cache.rs:86-100 | Changes an entry that is there, makes none, re-accounts its size and evicts no more than needed. |
| `Caching.Cache.Remove` | database/src/cache.rs:102-112 | Removes exactly one key and its size. |
| `Caching.Cache.RemoveMany` | database/src/cache.rs:191-199 | Removes exactly the given keys. |
| `Caching.Cache.RemoveAll` | database/src/cache.rs:201-210 | Empties the cache and its tracked size. |
| `Caching.InsertedSubMap` | database/src/cache.rs:70-84 | Under every policy and eviction an insertion leaves part of what an unbounded map would hold. |
| `Caching.RunIsSubMap` | database/src/cache.rs:156-210 | After any run of calls and evictions the contents are a sub-map of what the same calls build without eviction. |
| `Caching.TotalSizeRemove` | database/src/cache.rs:61-112 | The sum of sizes does not depend on the order in which entries are taken. |
| `ItemModel.RunRefines` | database/src/item.rs:76-181 | Over every run of reads with migration, writes, updates, removals, other stores' writes, commits and restarts, those between a migration's put and delete and between a removal's two deletes included: each reply is that of one cell that holds a value or the error that there is none; an interrupted removal leaves it empty or with a value that a legacy row had at the start. |
| `ItemModel.StepRefines` | database/src/item.rs:76-181 | One operation is one step of that cell; a live row hides any legacy row; an interrupted removal leaves nothing or the legacy row's value. |
| `ItemModel.NothingReappears` | database/src/item.rs:148-156 | In no run is a removed value read again until something is written, whatever restarts, interrupted removals, updates and commits come between: after a direct removal, and after a batched one whose batch is committed before any restart. |
| `ItemModel.BatchedRemoval` | database/src/item.rs:148-156 | Of a batched removal of a value that is on disk, with no write or other removal after it, a later read fails if and only if the batch was committed before the first restart. |
| `ItemModel.MoveKeepsValue` | database/src/item.rs:126-130 | Migration keeps the value, both when it completes and when it stops between its put and its delete. |
| `ItemModel.ReadMigrates` | database/src/item.rs:120-134 | A read that finds the legacy row only returns its value, puts it under the live key in the new format and deletes the legacy row, on disk and after any open batch; no other row changes. |
| `ItemModel.CleanAfterMigration` | database/src/item.rs:120-156 | Over every run: after such a read every interrupted removal leaves nothing. |
| `ItemModel.RemoveInterrupted` | database/src/item.rs:148-156 | A direct removal that stops between its two deletes leaves no value if and only if there is no legacy row. |
| `ItemModel.LeftIsOld` | database/src/item.rs:148-181 | Over every run, what an interrupted removal leaves is nothing, or what a legacy row that was there at the start decodes to. |
| `ItemModel.UpdateIsUncovered` | database/src/item.rs:158-181 | An update of an item that has its legacy row only leaves that row: stop in the removal after it, and the value before the update is read again. |
| `ItemModel.CleanOnceMigrated` | database/src/item.rs:126-130 | Once the legacy row is gone it stays gone in every run, and every interrupted removal leaves nothing. |
| `ItemModel.VersionedKeysDiffer` | database/src/item.rs:94-106 | The live and the legacy key differ if and only if the suffixes do. |
| `ItemModel.VersionedWrite` | database/src/item.rs:94-106 | A versioned item is written in the new format under its prefix and the current suffix, and no other row changes. |
| `ItemModel.VersionedLegacy` | database/src/item.rs:94-106 | Without a live row it is read, in the old format, from the bare prefix or from the old suffix. |
| `ItemModel.SameSuffixIsPlain` | database/src/item.rs:94-106 | With one suffix for both, the item is a plain one and the legacy decoder is never used. |
| `CachedItem.CachedDbItem.Read` | database/src/item.rs:108-136 | Takes the model's `Read` step: cache, live row, legacy row moved to the live key; what the move leaves is `ReadMigrates`. |
| `CachedItem.CachedDbItem.Write` | database/src/item.rs:138-146 | Takes the model's `Write` step. |
| `CachedItem.CachedDbItem.Remove` | database/src/item.rs:148-156 | Takes the model's `Remove` step. |
| `CachedItem.CachedDbItem.Update` | database/src/item.rs:158-181 | Takes the model's `Update` step: the new value from the cache, the live or the legacy row, or an error with nothing changed. |
| `SetModel.RunRefines` | database/src/set_access.rs:66-101 | Over every run of reads, writes, deletes, bucket deletes, other stores' writes and commits, each into the open batch or past it, and every eviction, each read returns the key's set. |
| `SetModel.CachedSetsMatchDisk` | database/src/set_access.rs:66-101 | In every state of a run, a cached set that no open batch bears on is exactly what a scan of its bucket collects. |
| `SetModel.StepRefines` | database/src/set_access.rs:66-101 | One operation is one step of a map from keys to sets. |
| `SetModel.RowKeyInjective` | database/src/key.rs:19-62 | Two rows are the same if and only if key and element are, and a bucket's prefix range holds a row if and only if the row is of that key. |
| `SetModel.DiskSetMember` | database/src/set_access.rs:154-193 | An element is in the set that a scan collects if and only if its row is there. |
| `SetModel.DropBucketExact` | database/src/set_access.rs:142-147 | Deleting a bucket removes exactly the rows that start with its path. |
| `SetModel.MutationCommutes` | database/src/set_access.rs:132-152 | Changing rows and changing one set of the map commute, and the other sets stay. |
| `SetModel.CachedMatches` | database/src/set_access.rs:81-101 | Sets changed in the cache stay equal to the map's; none is made there by a change. |
| `SetAccess.DbSetAccess.Collect` | database/src/set_access.rs:154-193 | The bucket iterator collected: the decoded elements of all rows of the bucket, or the error of a bad one. |
| `SetAccess.DbSetAccess.Write` | database/src/set_access.rs:132-140 | Emits one empty row under prefix, key and encoded element. |
| `SetAccess.DbSetAccess.Delete` | database/src/set_access.rs:149-152 | Emits the delete of that row. |
| `SetAccess.DbSetAccess.DeleteBucket` | database/src/set_access.rs:142-147 | Emits the range delete of the bucket; the bound it unwraps exists. |
| `SetAccess.CachedDbSetAccess.Read` | database/src/set_access.rs:66-79 | Takes the model's `Read` step. |
| `SetAccess.CachedDbSetAccess.Write` | database/src/set_access.rs:81-87 | Takes the model's `Add` step: the cached set changes only if it is there. |
| `SetAccess.CachedDbSetAccess.Delete` | database/src/set_access.rs:94-101 | Takes the model's `Drop` step. |
| `SetAccess.CachedDbSetAccess.DeleteBucket` | database/src/set_access.rs:89-92 | Takes the model's `DropBucket` step: the cached set is forgotten. |
| `SetAccess.UpdateCorrect` | database/src/item.rs:230-252 | In a sound state an update succeeds, and both its result and the rows to be hold exactly what was added and what was there and not removed. |
| `SetAccess.UpdateMeaning` | database/src/item.rs:230-252 | Removals first and additions after them: an item in both lists ends up in the set. |
| `SetAccess.CachedDbSetItem.Update` | database/src/item.rs:230-252 | A read and then one change of cache and rows. |
| `SetAccess.CachedDbSetItem.Read` | database/src/item.rs:210-228 | Takes the model's `Read` step and caches the set. |
| `SubmitGuards.SubmitGuard.PruneNow` | bridge/src/share_handler.rs:190-212 | The two loops are expiry from the front of the queue and then trimming to the bound. |
| `SubmitGuards.SubmitGuard.Get` | bridge/src/share_handler.rs:214-217 | Prunes, then looks the key up. |
| `SubmitGuards.SubmitGuard.InsertInflight` | bridge/src/share_handler.rs:219-226 | Prunes, then adds a key that is not there at the end of the queue. |
| `SubmitGuards.SubmitGuard.SetOutcome` | bridge/src/share_handler.rs:228-234 | Prunes, then refreshes an entry in place; its place in the queue stays. |
| `SubmitGuards.SubmitGuard.TryMark` | bridge/src/kaspaapi.rs:94-102 | Prunes, then marks a hash; succeeds if and only if it was not marked. |
| `SubmitGuards.SubmitGuard.Remove` | bridge/src/kaspaapi.rs:104-107 | Prunes, then removes the entry and leaves its place in the queue. |
| `SubmitGuards.ExpireKeeps` | bridge/src/share_handler.rs:190-203 | Expiry takes no entry within its time and changes none that it keeps. |
| `SubmitGuards.TrimBounds` | bridge/src/kaspaapi.rs:85-91 | With every entry queued, trimming ends within the bound and never for want of queue. |
| `SubmitGuards.PruneBounds` | bridge/src/kaspaapi.rs:70-92 | Pruning leaves at most the bound, keeps every entry queued, and changes nothing it keeps. |
| `SubmitGuards.BlockGuardBounded` | bridge/src/kaspaapi.rs:65-108 | In every run every recorded hash is in the queue, and the map holds at most one entry above `max_entries` between calls. |
| `SubmitGuards.BlockGuardOverfull` | bridge/src/kaspaapi.rs:94-102 | It holds that one more if and only if the last call marked a hash and the map was full after that call's pruning. |
| `SubmitGuards.BlockGuardOverfullExample` | bridge/src/kaspaapi.rs:94-102 | Two marks under a bound of one end with two entries. |
| `SubmitGuards.ShareGuardOverfull` | bridge/src/share_handler.rs:214-234 | The same bound and the same condition for every run of look-ups, insertions and recorded outcomes of the share guard. |
| `SubmitGuards.ShareGuardOverfullExample` | bridge/src/share_handler.rs:219-226 | Two insertions under a bound of one end with two entries. |
| `SubmitGuards.MarkedTwice` | bridge/src/kaspaapi.rs:94-107 | Between two successful marks of one hash, without a removal of it or an eviction for capacity, some call came more than the TTL after the first, in whatever order instants are seen. |
| `GuardInstants.EarlyMarksExactly` | bridge/src/kaspaapi.rs:94-107 | For any instants, some run of calls at them marks one hash twice within the TTL, with no removal or capacity eviction of it in between, if and only if an instant past the TTL of an earlier one is followed by one within it. |
| `GuardInstants.OrderedMarks` | bridge/src/kaspaapi.rs:94-107 | Instants in order allow no such run. |
| `GuardInstants.MarkedTwiceTooSoon` | bridge/src/kaspaapi.rs:396-400 | One such run: marked at 0, expired by a call at 11, marked again at 5, under a TTL of 10. |
| `GuardInstants.TrimExactly` | bridge/src/kaspaapi.rs:85-91 | Trimming drops the shortest front of the queue that it must, and exactly the entries with a place in it. |
| `GuardInstants.MarkTakesTurn` | bridge/src/kaspaapi.rs:94-107 | A new mark is behind all others in the order of eviction if and only if its hash has no place left in the queue from before; otherwise it takes the turn of that place. |
| `GuardInstants.RemarkedGoesFirst` | bridge/src/kaspaapi.rs:104-107 | One run in which a hash marked, removed and marked again is evicted before one marked in between. |
| `BlockRuns.SubmitBlock` | bridge/src/kaspaapi.rs:386-440 | Marks, sends, and takes the mark back on a rejection or on an error whose shown text names no duplicate; sends nothing if the hash is marked. |
| `BlockRuns.MarkStaysIffAccepted` | bridge/src/kaspaapi.rs:419-430 | The shown text of an error is that of its context, so no error is taken for a duplicate: the mark stays if and only if the node accepted the block. |
| `BlockRuns.OneSubmissionPerBlock` | bridge/src/kaspaapi.rs:395-440 | In every interleaving, with calls to the node within the TTL and no capacity eviction, no block is being sent by two tasks at a time. |
| `BlockRuns.SentTwice` | bridge/src/kaspaapi.rs:395-440 | A block is sent again only after the task that sent it took its own mark back, or after a call more than the TTL later. |
| `SubmitRuns.OneEvaluationPerKey` | bridge/src/share_handler.rs:480-489 | In every interleaving, under the same conditions, no share key is under evaluation twice at a time. |
| `SubmitRuns.EvaluatedTwice` | bridge/src/share_handler.rs:477-513 | A key is evaluated again only after some step more than the TTL later than its outcome, recorded within the TTL of its start, or than the start of an evaluation that died. |
| `ShareInstants.EarlyEvaluationsExactly` | bridge/src/share_handler.rs:480-489 | For any instants, some timely run at some of them, in their order, evaluates one key twice within the TTL if and only if the guard can hold an entry and the instants hold a start, its outcome in time (or none, if it dies), one past the TTL of that, and one back within the TTL of the start. |
| `ShareInstants.OrderedEvaluations` | bridge/src/share_handler.rs:480-489 | Instants in order do not: a key is evaluated at most once in any TTL. |
| `ShareInstants.EvaluatedTwiceTooSoon` | bridge/src/share_handler.rs:480-489 | One such run: started and recorded at 0, forgotten at a look-up at 11, evaluated again at 5, under a TTL of 10. |
| `SubmitRuns.CrashIsInFlight` | bridge/src/share_handler.rs:1013-1019 | A repeat of an evaluation that died is told that it is in flight, though nothing runs, until a step comes past its time. |
| `SubmitRuns.RepeatAnswer` | bridge/src/share_handler.rs:480-513 | A repeat of an evaluation that runs is told that it is in flight; only that or one that died makes it so; otherwise, if not evaluated afresh, it is told the outcome last recorded for its key. |
| `SubmitRuns.TraceKeepsInv` | bridge/src/share_handler.rs:477-513 | In every reachable state the running evaluations are in flight, each under its own key and since its own instant, and whatever else is in flight is of an evaluation that died. |
| `SubmitRuns.OutcomeHolds` | bridge/src/share_handler.rs:228-234 | A recorded outcome, or the mark of an evaluation that died, stays as it is until a step comes more than the TTL after it. |
| `SubmitRuns.SubmitKeyInjective` | bridge/src/share_handler.rs:477-478 | The joined key tells worker, job id and nonce apart, whatever the worker is called, when the nonce holds no separator. |
| `JobRing.MiningState.AddJob` | bridge/src/mining_state.rs:54-73 | The new job gets the next id; the ring stays the newest job of each slot. |
| `JobRing.MiningState.GetJob` | bridge/src/mining_state.rs:79-85 | Returns the newest job of the id's slot, and so the job itself for the last 300 ids. |
| `JobRing.Search` | bridge/src/share_handler.rs:518-1051 | Tries the named job and then the ones before it: at most 300, stopping at the first that meets a target, at id 1, one slot past the start, or before an empty slot; the verdict is that of the first job that meets the network's or the pool's target; only id 0 can count below zero. What the verdict is, is `VerdictMeans`. |
| `JobRing.SearchIsDetermined` | bridge/src/share_handler.rs:518-1051 | That description fixes both the verdict and the ids tried. |
| `JobRing.VerdictMeans` | bridge/src/share_handler.rs:769-1009 | For the last job tried: a share if and only if the node took its block, or only the pool's target is met; stale if and only if the block is a duplicate; bad if and only if submitting it failed otherwise; low difficulty for a block that the node rejected, and for no target met (or, from id 0, a panic). |
| `JobRing.VisitsDistinctSlots` | bridge/src/share_handler.rs:1011-1031 | From an id of at least 1, the ids tried go down, never below 1, in pairwise different slots. |
| `JobRing.FullSearch` | bridge/src/share_handler.rs:1011-1031 | With a full ring and an id of at least 300, a search without a hit has tried the job in every slot exactly once. |
| `JobRing.SearchTries` | bridge/src/share_handler.rs:1018-1025 | On a miner's ring a search tries the very job of each id among the last 300, a newer occupant of the slot for an older id, and an older one for an id not given out yet. |
| `JobRing.MiningState.IsRing` | bridge/src/mining_state.rs:54-85 | The table holds, for every id, the newest job of its slot, if there was one. |
| `JobRing.JobZero` | bridge/src/share_handler.rs:1013-1019 | With id 0 a search panics if and only if the job in that slot meets no target. |
| `JobRing.JobZeroExample` | bridge/src/share_handler.rs:1013-1019 | A full ring and a share that meets no target. |
| `JobRing.StopsAtLimit` | bridge/src/share_handler.rs:1013-1016 | The code's stop condition is exactly the limit of 300 or the id, whichever is less. |
| `SubmitPipeline.ShareHandler.HandleSubmit` | bridge/src/share_handler.rs:313-1104 | A submission that names no job or has an unreadable nonce changes nothing; a repeat is answered from the guard; any other is searched for, recorded under the verdict, counted once for its worker and once overall, and told what a repeat would be told. |
| `SubmitPipeline.ShareHandler.Conclude` | bridge/src/share_handler.rs:910-952 | Outcome, counters and reply of each verdict, which `VerdictIsHandled` spells out. |
| `SubmitPipeline.VerdictIsHandled` | bridge/src/share_handler.rs:910-1099 | For each verdict the reply, the one counter that rises by one, overall and for the worker, while the other two stay, and the outcome in the guard: share, yes, accepted; stale, stale share, stale; low difficulty and bad, their own replies and outcomes, and both invalid. |
| `SubmitPipeline.VerdictIsRecorded` | bridge/src/share_handler.rs:910-1099 | With the evaluation within the TTL and no capacity eviction that outcome is in the guard, as of the end of the evaluation. |
| `SubmitPipeline.MinerIsTold` | bridge/src/share_handler.rs:518-1099 | From the node and the targets to the miner: the reply and whether the accepted counter rises, for every reply of the node and every way to meet the targets. |
| `SubmitPipeline.RepeatIsTold` | bridge/src/share_handler.rs:491-513 | What a repeat is told for each recorded outcome; nothing is counted. |
| `SubmitPipeline.NonceAlone` | bridge/src/share_handler.rs:439-472 | For a miner without an extranonce, up to sixteen hex digits, with or without `0x` in front, are evaluated at their value. |
| `SubmitPipeline.PrefixIsRemoved` | bridge/src/share_handler.rs:439 | Of hex digits with `0x` in front exactly the `0x` is removed, and of plain ones nothing. |
| `SubmitPipeline.Begin` | bridge/src/share_handler.rs:480-489 | Look-up and insertion in one critical section are the concurrent model's `Check` event. |
| `SubmitPipeline.CountedExactlyOnce` | bridge/src/share_handler.rs:1053-1091 | A submission raises a counter if and only if it was evaluated to an end: by one, that of its verdict's class, once overall and once for its own worker, and no other counter of any worker. |
| `SubmitPipeline.RepeatGetsSameReply` | bridge/src/share_handler.rs:491-513 | A submission evaluated within the TTL and made again within the TTL of its outcome, with no capacity eviction meanwhile, gets the very same reply and counts nowhere. |
| `SubmitPipeline.SpellingDecides` | bridge/src/share_handler.rs:444-478 | For nonces that leave room for the extranonce: two are the same number if and only if they agree in lower case with leading zeros, and have the same key if and only if they agree without the lower case. |
| `SubmitPipeline.SpellingExample` | bridge/src/share_handler.rs:477-478 | `0a` and `0A` are one number with two keys. |
| `SubmitPipeline.CrashedRepeat` | bridge/src/share_handler.rs:491-497 | A submission whose search panicked, made again within the TTL, is told yes and counts nowhere. |
| `SubmitPipeline.KeysTellApart` | bridge/src/share_handler.rs:459-478 | Two submissions with readable nonces have the same key if and only if they are the same submission. |
| `ShareStats.Conservation` | bridge/src/share_handler.rs:288-311 | Over every interleaving of look-ups, worker counts, overall counts and pruning, for each class: live and dropped workers together make up the overall count and what is on its way there, and that with the submissions under way is every one that began. |
| `SubmitAccounting.EvaluationsAreCounted` | bridge/src/share_handler.rs:480-1099 | Guard and counters in one machine, over every interleaving: with no submission under way, for each class, the submissions found new, the outcomes recorded in the guard, the overall counter and the sum over live and dropped workers are the same number. |
| `SubmitAccounting.JointConservation` | bridge/src/share_handler.rs:480-1099 | In every reachable state, for each class: the evaluations are those counted and those still to be counted, and those recorded and those still to be recorded. |
| `SubmitAccounting.OneDutyPerKey` | bridge/src/share_handler.rs:480-1099 | With evaluations within the TTL and no capacity eviction, no two submissions under way and not yet recorded have one key. |
| `SubmitAccounting.RepeatsCountNowhere` | bridge/src/share_handler.rs:491-513 | Over every run, with no submission under way, the three overall counters add up to all submissions but the repeats and those whose search panicked. |
| `ShareStats.QuiescentTotals` | bridge/src/share_handler.rs:1053-1091 | With none under way, live and dropped workers add up to the overall count and to the number of submissions. |
| `ShareStats.WorkerTotals` | bridge/src/share_handler.rs:1172-1192 | All objects that a worker ever had, pruned ones included, add up to the submissions counted for that worker. |
| `VarDiff.ClampedStep` | bridge/src/share_handler.rs:46-102 | With the power-of-two clamp, exactly: a power of two doubles at a ratio of at least 1.25, halves above one at a ratio of at most 0.75 or after 90 silent seconds, and else stays. |
| `VarDiff.ClampedStepFromShares` | bridge/src/share_handler.rs:46-102 | The same from shares and seconds alone: doubled if and only if at least 3 shares in at least 30 seconds are at least 1.25 times what was due, halved above one if and only if they are at most 0.75 times that or none came in 90 seconds. |
| `VarDiff.RatioMeans` | bridge/src/share_handler.rs:79-80 | The ratio times the expected shares per minute (at least one) times the seconds is sixty times the shares. |
| `VarDiff.SilentStep` | bridge/src/share_handler.rs:64-73 | Without the clamp a silent miner's difficulty halves, and stops at one. |
| `VarDiff.NextInRange` | bridge/src/share_handler.rs:63-101 | With or without the clamp, no window takes a difficulty of at least one below one, above its double, or below its half other than to one. |
| `VarDiff.InitialIs` | bridge/src/stratum_server.rs:81-88 | The starting difficulty is 4 when none is configured, else the configured one, with the clamp the largest power of two not above it. |
| `VarDiff.ReachableIsPow2` | bridge/src/share_handler.rs:1609-1622 | From the server's initial value every difficulty that a worker can reach, by adjustments, resets and reseeding from the difficulty last sent, is a power of two of at least one. |
| `VarDiff.FloorLog2` | bridge/src/stratum_server.rs:82-88 | The exponent of the largest power of two not above the number. |
| `VarDiff.CeilLog2` | bridge/src/share_handler.rs:51-52 | The exponent of the smallest power of two not below the number. |
| `VarDiff.NeverCrossesOne` | bridge/src/share_handler.rs:73-101 | Without the clamp, no adjustment for a steady miner carries the observed/target ratio across 1, at the floor or above it. |
| `VarDiff.RunKeepsSide` | bridge/src/share_handler.rs:73-101 | Over a whole run the ratio stays on the side of 1 where it started. |
| `VarDiff.RatioAfter` | bridge/src/share_handler.rs:83-91 | A step halves or doubles a ratio of at least 4 or at most 1/4, and takes the root of any other, so the ratio comes strictly closer to 1. |
| `VarDiff.SteadyConverges` | bridge/src/share_handler.rs:73-101 | A steady run is in the dead band, or held by the floor, after three adjustments and one more for each doubling of the ratio beyond 4. |
| `VarDiff.EverySteadyRunSettles` | bridge/src/share_handler.rs:73-101 | For every miner and starting difficulty there is a number of windows within which every steady run settles. |
| `WriteHalf.RunKeepsInv` | bridge/src/stratum_context.rs:490-549 | In every interleaving of writers and disconnects at most one task is inside the lock, the lock is taken exactly while one is, the half is in exactly one of slot, writer and disconnect, and a lock holder finds the slot empty only after a disconnect took the half. |
| `WriteHalf.Quiescent` | bridge/src/stratum_context.rs:490-549 | When all tasks are done, on whatever path, the lock is free and the half is in its slot or closed. |
| `WriteHalf.PutBackIntoEmptySlot` | bridge/src/stratum_context.rs:511-515 | Putting the half back never overwrites one. |
| `WriteHalf.ReportsWhatItDid` | bridge/src/stratum_context.rs:490-549 | Over every interleaving, a writer reports success if and only if one of its writes succeeded, and it has written at most three times. |
| `WriteHalf.DisconnectCloses` | bridge/src/stratum_context.rs:586-629 | The one disconnect that gets to take the half closes it if and only if no writer has it out. |
| `WriteHalf.LeftOpen` | bridge/src/stratum_context.rs:586-629 | A run in which a write is under way at the disconnect ends with the half in its slot, never closed. |
| `WriteHalf.StaysOpen` | bridge/src/stratum_context.rs:586-638 | Once a disconnect is over and has not closed the half, nothing later does. |
| `LineFraming.LineReader.AppendLineData` | bridge/src/stratum_listener.rs:21-27 | Appends unless that would exceed 64 KiB, and then leaves the buffer as it was. |
| `LineFraming.LineReader.OnRead` | bridge/src/stratum_listener.rs:329-560 | One read with its inner loop is one step of the session. |
| `LineFraming.ChunkingExactly` | bridge/src/stratum_listener.rs:329-560 | A session not refused for length emits the non-empty lines of the whole NUL-filtered stream up to the first HTTP-like one, however the stream was cut, if and only if it did not start with a read of just `SM` before the line was complete (or the stream means nothing). |
| `LineFraming.ChunkingIrrelevant` | bridge/src/stratum_listener.rs:329-560 | The same, one way, for every other session. |
| `LineFraming.LoneSMExample` | bridge/src/stratum_listener.rs:341-345 | A stream cut as `SM`, `x` and a newline is refused, though it has one harmless line. |
| `LineFraming.LoneSMRefused` | bridge/src/stratum_listener.rs:341-345 | Such a session emits nothing and is closed, whatever follows. |
| `LineFraming.SessionOpen` | bridge/src/stratum_listener.rs:494-500 | Between reads of an open session the buffer is the stream's last, incomplete line: no newline, at most 64 KiB; and all earlier lines have been emitted. |
| `LineFraming.NeverTooLong` | bridge/src/stratum_listener.rs:485-493 | A stream whose lines are at most 64 KiB less 1024 bytes, read 1024 bytes at a time, is never refused for length. |
| `LineFraming.RefusedForLength` | bridge/src/stratum_listener.rs:485-493 | A read is refused for length if and only if it and the incomplete line before it exceed 65536 characters. |
| `LineFraming.RefusedLines` | bridge/src/stratum_listener.rs:341-352 | A line that starts with `{` is never taken for HTTP; a line of one of the seven prefixes always is; of two characters only `SM`. |
| `LineFraming.TrimMeans` | bridge/src/stratum_listener.rs:341-342 | Trimming takes the white space off both ends, all of it and nothing else. |
| `LineFraming.WithoutNulMeans` | bridge/src/stratum_listener.rs:332-333 | No NUL byte is left, and input without one is left alone. |
| `LineFraming.WithoutNulAppend` | bridge/src/stratum_listener.rs:332-333 | NUL bytes are dropped wherever they are, read by read or at once. |
| `LineFraming.StreamAppend` | bridge/src/stratum_listener.rs:494-500 | The messages of a longer stream are those of a shorter one and those of its rest with what came. |
| `HeaderStream.SerializeBlockHeader` | bridge/src/hasher.rs:191-248 | The nested loops feed the hasher the header's byte string; where each field is in it is stated by the five members below. |
| `HeaderStream.FrontLayout` | bridge/src/hasher.rs:195-200 | The version is in bytes 0 to 2 and the number of levels in bytes 2 to 10, little-endian. |
| `HeaderStream.LevelOfHeader` | bridge/src/hasher.rs:202-215 | The number of parents of level `i` is at 10 plus, for each level before it, 8 and 32 per parent. |
| `HeaderStream.ParentOfHeader` | bridge/src/hasher.rs:202-215 | Parent `k` of level `i` is 8 + 32k bytes after that. |
| `HeaderStream.MiddleOfHeader` | bridge/src/hasher.rs:217-234 | With `p` the end of the levels: the three roots at p, p+32 and p+64, zero for the time at p+96, bits at p+104, zero for the nonce at p+108, the DAA score at p+116 and the blue score at p+124. |
| `HeaderStream.TailOfHeader` | bridge/src/hasher.rs:236-248 | At p+132 the length of the work, then the work, big-endian without leading zeros, and the pruning point in the last 32 bytes. |
| `Endian.ToLEAt` | bridge/src/hasher.rs:195-234 | Byte `i` of a little-endian number is the one that counts 256 to the `i`. |
| `HeaderStream.HeaderBytesInjective` | bridge/src/hasher.rs:191-248 | Two headers give the same bytes if and only if they agree in all but timestamp and nonce, for any number of levels and parents. |
| `HeaderStream.LevelsPrefix` | bridge/src/hasher.rs:202-216 | The parent levels can be read off the front of whatever follows them. |
| `HeaderStream.StripInjective` | bridge/src/hasher.rs:237-242 | Stripping leading zeros from bytes of a known length loses nothing. |
| `HeaderStream.FirstNonZero` | bridge/src/hasher.rs:237-239 | Finds where the leading zeros end, the end if all are zero. |
| `JobParams.LargeParams` | bridge/src/hasher.rs:367-390 | The word-based encoder with its swapped timestamp gives the text of the byte-based one, 80 characters; it panics if and only if it gets fewer than 32 bytes. |
| `JobParams.ReadBack` | bridge/src/hasher.rs:277-362 | The text decodes to the same hash and timestamp. |
| `Hex.EncodeAt` | bridge/src/hasher.rs:277-362 | Byte `i` is two lower-case digits, the high half first. |
| `JobParams.SwappedText` | bridge/src/hasher.rs:380-386 | The byte-swapped timestamp as a big-endian word reads as its little-endian bytes. |
| `Extranonce.Allocator.Assign` | bridge/src/client_handler.rs:92-133 | The k-th miner that gets an extranonce gets k mod 65536 in exactly four hex digits; Bitmain miners get none and use none up. |
| `Extranonce.Allocator.FetchNext` | bridge/src/client_handler.rs:109-117 | Hands out the old value and wraps after 65535. |
| `Extranonce.CombinedNonce` | bridge/src/share_handler.rs:444-472 | For hex nonces of at most 12 digits the combined nonce is extranonce * 2^48 + nonce, and it fits in 64 bits. |
| `Extranonce.DisjointRanges` | bridge/src/share_handler.rs:444-472 | Any two of 65536 consecutive holders search disjoint ranges. |
| `Extranonce.OwnShare` | bridge/src/share_handler.rs:444-472 | A nonce of up to 16 digits falls into the miner's own share if and only if it has at most 12 digits or spells that share itself. |
| `Extranonce.LongNonceCollides` | bridge/src/share_handler.rs:450-462 | With 16 digits a miner can submit any nonce of any other. |
| `Extranonce.LongNonceEscapes` | bridge/src/share_handler.rs:450-462 | A nonce of more than 12 digits is taken as it is: the split binds only miners that leave room for it. |

## Left out

- RocksDB, bincode, tokio, gRPC, serde and prometheus: a map with ordered scans, an encoder whose decoder undoes it, atomic steps, and arbitrary replies stand for them.
- Failing database calls and failing serialisation: the model's calls succeed; decoding can fail.
- Interleavings inside one database operation, such as two readers migrating one row: operations are atomic.
- Sharing of cached sets: a set that was handed out is a value here, not the lock that later changes show through.
- `iterator`, `seek_iterator` on the key/value store and the `_with_fallback` helpers: documented as not aware of versions.
- `MemoryWriter` and the other implementations of the writer trait for references.
- Caching.Cache: sizes and their sum are unbounded; the 64-bit wrap of the tracked size is not modelled. Which index of the index map is drawn is modelled as an arbitrary choice of entry.
- KvModel.RunRefines: one open batch of the store at a time; two batches that both bear on one store are not modelled.
- JobRing.MiningState.AddJob: does not model the wrap of the 64-bit job counter.
- JobRing.Search: does not model jobs added while the search runs. Id 0 ends it with `Underflow`, the panic of builds that check for overflow, as the release profile does.
- SubmitPipeline.ShareHandler.HandleSubmit: one submission on its own; the interleaving of several is in `SubmitRuns`, `ShareStats` and `SubmitAccounting`. It takes a parsed job id and the chosen nonce parameter; the choice among parameters, JSON and address checks are not modelled, nor the low-difficulty reply that is withheld when the request has no id. It asks for an extranonce of at most 16 digits, which those handed out are.
- ShareStats.Conservation: which idle workers are dropped is an arbitrary set; the sums of share difficulty, the counters of blocks and the windows of variable difficulty are not counted.
- Proof of work and targets are functions of job and nonce; the node's replies are arbitrary.
- VarDiff.NeverCrossesOne: over reals. Rounding is not modelled, and neither are infinities and NaN, which the code refuses; the square root is a parameter with its defining equation, and logarithms are their exponents.
- WriteHalf.RunKeepsInv: a task that is cancelled while it holds the lock is not modelled, and a write's outcome is arbitrary.
- LineFraming.ChunkingExactly: ASCII input; the lossy decoding of other bytes, which can be cut in the middle of a character, is not modelled. What a handler does with a line is not modelled.
- HeaderStream.SerializeBlockHeader: ends before the hash itself; the compressed form of the parents is expanded already.
- Extranonce.Allocator.Assign: whether a miner is of the Bitmain kind is a parameter.
- Wallets, the daemon, consensus, mining on the CPU, dashboards, configuration and logging.

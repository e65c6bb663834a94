# hash_stream in Dafny

A model of the four components of `hash_stream` with proofs about them:

- **Chained hash table** `hash_table` (module `HashTables`, class `HashTable`).
  - State: a bucket array of key/value chains, `count`, `capacity` and a
    user hash function.
  - Abstract meaning: the ghost field `Contents`, the dictionary that the
    buckets stand for.
  - The class invariant (`Buckets.Inv`, inside `HashTable.Valid`) says:
    - every entry sits in bucket `hash(key)`;
    - no key occurs twice;
    - every key of `Contents` is found in its bucket with its value;
    - `count` is the total chain length.
  - Every mutating operation is proved to keep the invariant and to change
    `Contents` as a dictionary operation would.
  - After a `set`, if `4 * count > 3 * capacity`, the table doubles its
    bucket count and rehashes.
- **Key iterator** `hash_table_iterator` (module `HashTableIterators`, class
  `KeyIterator`).
  - It is a cursor (`currentBucket`, `innerIndex`) over the bucket array the
    table had when the iterator was created.
  - It is proved to walk exactly the table's keys, in bucket order, starting
    already on the first key.
- **Record stream** `file_stream` (module `FileStreams`, class `FileStream`).
  - The file is a sequence of fixed-size records with a record cursor and an
    open flag.
  - Writing past the end leaves a hole, which reads back as the record
    `gap` given when the stream is constructed.
  - Record `n` starts at byte `n * recordSize`.
- **LRU cache** `cache` (module `Caches`, class `Cache`).
  - It combines a `HashTable` of resident entries, a `FileStream` of records
    as the backing store, the recency order (least recent first), a capacity
    and two counters.
  - The pure functions `Access`, `Admitted` and `Evictee` describe one access
    and the eviction it causes.
  - The methods are proved to carry those functions out.
  - The invariant `LruInv` is proved to hold after every access:
    - the recency order lists the resident keys, each once;
    - at most `capacity` keys are resident.
  - A ghost access history records the key of every hit, every miss served
    from the store and every `put`. Every access keeps the recency order
    sorted by each key's last use in that history (`InRecencyOrder`), so the
    evicted key is the resident key used least recently.

`Entries.Entry` is the key/value pair of `hash_table/entry.hpp:4-11`. Module
`Wrappers` holds `Option` and `Result`. Exceptions of the C++ code become
`Err` values:

- `out_of_range` from `get` becomes `KeyNotFound`;
- a bad bucket index becomes `IndexOutOfRange`;
- a read past the end of the stream becomes `EndOfStream`;
- an operation on a closed stream becomes `Closed`.

Module `Scenarios` replays selected expectations of `tests_hash.cpp` and
`tests_iterator.cpp`, plus an LRU eviction run, as methods whose
postconditions state the expected outcome. The replayed tests are:

- tests_hash.cpp: fresh tables (10-25), bucket sizes (41-52), `calc_value`
  (54-62), deleting an absent key (130-138, 351-362), growth (151-171,
  237-256), `resize` (173-182), collisions (258-272) and chained calls
  (379-396);
- tests_iterator.cpp: three keys in one bucket (22-45), an empty table
  (78-92) and a single key (94-113).

Where the declarations in the headers leave behaviour open, the model makes
the following choices:

- **Bucket index.** The C++ truncating `%` is followed by `+ capacity` when
  the result is negative. `Buckets.BucketIndex` proves that this equals
  Dafny's Euclidean `h % capacity`.
- **Growth.** Capacity is checked after every `set`, once the new entry is
  in: the table doubles when `4 * count > 3 * capacity`.
  - The tests' final capacities (16 from 4 buckets, 20 from 5, after ten
    keys) also fit a check made before the insert, and a check with `>=`.
  - The check after the insert rests on the comment at
    tests_hash.cpp:248, which places the second doubling of the 5-bucket
    table on the 8th element.
  - The strict `>` (a load above 3/4) is a modelling choice; that comment
    does not tell it apart from `>=`.
- **`add` and `remove`.** hash.hpp:41-42 only declare these interface
  methods. The model gives them the effect of `set` and `del`: `add`
  overwrites a present key and `remove` ignores an absent one.
- **Store scan.** `read_from_stream` returns the **first** record with the
  key (a modelling choice). See `ScanIgnoresLaterPuts` and the last line of
  "Left out".
- **Eviction order.** On a miss or a `put`, the key is stored first. Then,
  if the cache is over capacity, the least recently used key is evicted from
  the table and the recency order. Finally the new key is appended as most
  recent.

## Model

| member | source | states |
|---|---|---|
| Buckets.BucketIndex | hash.hpp:55 | the C++ remainder corrected for negative hashes lies in `[0, capacity)` and equals the Euclidean remainder |
| Buckets.TruncRem | hash.hpp:55 | C++ `%`: magnitude below the divisor, sign of the dividend, and `TruncDiv * n + r == a` |
| Buckets.Find | hash.hpp:34-44 | the chain lookup behind `get` and `try_get`: `Some` exactly when an entry has the key, holding that entry's value |
| Buckets.IndexOf | hash.hpp:75 | `find_in_bucket`: the index of the first entry with the key, or -1 exactly when no entry has it |
| Buckets.LookupInv | hash.hpp:34-36 | under the table invariant, searching the key's bucket finds the key's value exactly when the key is in the dictionary |
| Buckets.EmptyInv | hash.hpp:27 | `capacity` empty buckets represent the empty dictionary and hold no entries |
| Buckets.InsertNew | hash.hpp:38 | appending a new key to its bucket represents `m[k := v]` and keeps every invariant |
| Buckets.ReplaceExisting | hash.hpp:38 | overwriting an existing key's entry in place represents `m[k := v]` and keeps every invariant |
| Buckets.RemoveExisting | hash.hpp:39 | cutting a key's entry out of its chain represents `m - {k}` and keeps every invariant |
| Buckets.RemoveAt | hash.hpp:39 | removing position `i` of a chain keeps the other entries in order |
| Buckets.SizeMatches | hash.hpp:21 | under the invariant, the total chain length equals the number of keys in the dictionary |
| Buckets.TotalSizeUpdate | hash.hpp:21 | replacing one chain changes the total length by the difference of the chain lengths |
| Buckets.SumOfSizes | hash.hpp:57 | a sequence of the bucket sizes sums to the total chain length |
| Buckets.Flatten | hash.hpp:69-70 | concatenating the chains gives a sequence as long as the total chain length |
| Buckets.KeysOf | hash.hpp:69 | the key of every entry, in order |
| Buckets.ValuesOf | hash.hpp:70 | the value of every entry, in order |
| Buckets.FlattenAgrees | hash.hpp:69-70 | every entry of the flattened buckets is a key of the dictionary with its value |
| Buckets.FlattenCovers | hash.hpp:69 | every key of the dictionary occurs in the flattened buckets |
| Buckets.FlattenDistinct | hash.hpp:69 | no key occurs twice in the flattened buckets |
| Buckets.FlattenAt | hash_table/hash_table_iterator.hpp:14-15 | entry `j` of bucket `i` is entry number `TotalSize(b[..i]) + j` of the flattened buckets |
| Buckets.FlattenLocate | hash_table/hash_table_iterator.hpp:14-15 | every position of the flattened buckets is addressed by a (bucket, index) cursor |
| Buckets.PrefixSkipsEmpty | hash_table/hash_table_iterator.hpp:27 | skipping empty buckets does not change the number of keys before the cursor |
| Buckets.SuffixNonEmpty | hash_table/hash_table_iterator.hpp:20 | keys remain after bucket `lo` exactly when some bucket from `lo` on is non-empty |
| Buckets.EmptyBuckets | hash.hpp:27 | `n` buckets, all empty |
| Buckets.MapChain | hash.hpp:60 | the same keys in the same order, each value passed through `f` |
| Buckets.MapBuckets | hash.hpp:60 | `MapChain` on every bucket, bucket count kept |
| Buckets.FilterChain | hash.hpp:64-66 | keeps exactly the entries whose value satisfies the predicate |
| Buckets.FilterBuckets | hash.hpp:64-66 | `FilterChain` on every bucket, bucket count kept |
| Buckets.MapValues | hash.hpp:60 | the same key set, each value passed through `f` |
| Buckets.FilterValues | hash.hpp:64-66 | exactly the keys whose value satisfies the predicate, values unchanged |
| Buckets.MapInv | hash.hpp:60-67 | mapping every chain represents the mapped dictionary under the same hash |
| Buckets.FilterInv | hash.hpp:64-66 | filtering every chain represents the filtered dictionary under the same hash |
| Buckets.FilterChainDistinct | hash.hpp:64-66 | filtering a chain with distinct keys keeps them distinct |
| HashTables.GrowthRestoresLoad | hash.hpp:38 | growth never shrinks the table, and after a one-key insert it restores `count <= 3/4 capacity` |
| HashTables.GrownCapacity | hash.hpp:38 | the capacity after a `set` is either kept or doubled, and (for a positive capacity) it grows exactly when `4 * count > 3 * capacity` |
| HashTables.GrowthExamples | tests_hash.cpp:151-171 | ten inserts take 4 buckets to 16 and 5 to 20, as the tests expect; the model's own example adds that three inserts leave 8 buckets at 8 |
| HashTables.Ratio | hash.hpp:50 | a non-negative real `r` with `r * b == a` |
| HashTables.FoldCounts | hash.hpp:62 | folding the counting step over a sequence adds its length |
| HashTables.MoveOne | hash.hpp:53 | moving one more old entry into the new buckets keeps the rehash loop invariant |
| HashTables.NotYetMoved | hash.hpp:53 | the entry about to be moved is in the dictionary and not yet in the new buckets |
| HashTables.MoveProgress | hash.hpp:53 | after the move, the moved entries are exactly those before the cursor |
| HashTables.NextBucket | hash.hpp:53 | finishing an old bucket has moved every key whose old slot was that bucket |
| HashTables.AllMoved | hash.hpp:53 | after the last bucket, the new buckets hold the whole dictionary |
| HashTables.HashTable.constructor | hash.hpp:27 | an empty dictionary with the requested capacity, 8 by default, over that many empty buckets |
| HashTables.HashTable.GetCount | hash.hpp:30 | the number of keys in the dictionary |
| HashTables.HashTable.GetCapacity | hash.hpp:31 | the bucket count, always positive |
| HashTables.HashTable.GetBucketSize | hash.hpp:32 | defined exactly for `0 <= index < capacity`, then that chain's length (at most `count`); otherwise `IndexOutOfRange` |
| HashTables.HashTable.Get | hash.hpp:34 | the key's value if the key is present, else `KeyNotFound` |
| HashTables.HashTable.ContainsKey | hash.hpp:36 | true exactly when the key is in the dictionary |
| HashTables.HashTable.Set | hash.hpp:38 | the dictionary becomes `old[key := value]`; count grows only for a new key; capacity is `GrownCapacity` of the new count; a table at most 3/4 full stays so; without growth a new key is appended at the end of its bucket's chain and no other bucket changes |
| HashTables.HashTable.Del | hash.hpp:39 | the dictionary becomes `old - {key}`; count drops only if the key was present; absent key: no change |
| HashTables.HashTable.Add | hash.hpp:41 | modelled as `set` (see Left out): the dictionary becomes `old[key := value]`, the invariant is kept, the table grows as after a `set`, and without growth a new key is appended to its chain |
| HashTables.HashTable.Remove | hash.hpp:42 | modelled as `del` (see Left out): the dictionary becomes `old - {key}` and the invariant is kept |
| HashTables.HashTable.TryGet | hash.hpp:44 | `Some` of the key's value exactly when the key is present |
| HashTables.HashTable.TryAdd | hash.hpp:45 | succeeds exactly for an absent key, which it then inserts; otherwise nothing changes |
| HashTables.HashTable.TryRemove | hash.hpp:46 | succeeds exactly for a present key, which it removes |
| HashTables.HashTable.TryUpdate | hash.hpp:47 | succeeds exactly for a present key, whose value it replaces; count and capacity unchanged |
| HashTables.HashTable.IsConsistent | hash.hpp:48 | the recount and placement check hold on every valid table |
| HashTables.HashTable.GetLoadFactor | hash.hpp:50 | a non-negative `r` with `r * capacity == count` |
| HashTables.HashTable.SetCapacity | hash.hpp:52 | same dictionary and count, the requested capacity |
| HashTables.HashTable.Rehash | hash.hpp:53 | rebuilding into `newCapacity` buckets keeps the dictionary and count, with every entry in its new bucket |
| HashTables.HashTable.Hash | hash.hpp:55 | the bucket index lies in `[0, capacity)` and is `hash(key) mod capacity` |
| HashTables.HashTable.GetBucketDistribution | hash.hpp:57 | one size per bucket, each the chain length, summing to `count` |
| HashTables.HashTable.Map | hash.hpp:60 | a new table with the same keys, count and capacity, values mapped; the receiver unchanged |
| HashTables.HashTable.Reduce | hash.hpp:62 | the left fold of `f` from `initial` over the values, in the order `select_values` lists them; `initial` for an empty table |
| HashTables.HashTable.ReduceCounts | hash.hpp:62 | reducing with the counting step from 0 gives `count`: every value is folded once |
| HashTables.HashTable.Where | hash.hpp:64 | a new table holding exactly the entries whose value satisfies the predicate; the receiver unchanged |
| HashTables.HashTable.Filter | hash.hpp:66 | in place: the dictionary becomes its filtered version; capacity kept |
| HashTables.HashTable.MapMutable | hash.hpp:67 | in place: every value mapped, keys, count and capacity kept |
| HashTables.HashTable.SelectKeys | hash.hpp:69 | `count` keys, exactly the dictionary's keys, none twice |
| HashTables.HashTable.SelectValues | hash.hpp:70 | `count` values, the value at position `p` belonging to key `p` of `SelectKeys` |
| HashTables.HashTable.GetKeysIterator | hash.hpp:72 | a fresh iterator over this table's buckets that walks `SelectKeys` and starts at position 0 |
| HashTableIterators.NextNonEmpty | hash_table/hash_table_iterator.hpp:27 | the first non-empty bucket at or after `lo` (or the end), with every bucket skipped empty |
| HashTableIterators.NextNonEmptyExists | hash_table/hash_table_iterator.hpp:27 | the search stops before the end exactly when a non-empty bucket exists |
| HashTableIterators.KeyIterator.CursorAddressesKey | hash_table/hash_table_iterator.hpp:14-15 | a cursor on a bucket addresses key number `Position()` of the iteration order |
| HashTableIterators.KeyIterator.constructor | hash_table/hash_table_iterator.hpp:18 | a fresh iterator is already on the first key (position 0) |
| HashTableIterators.KeyIterator.HasNext | hash_table/hash_table_iterator.hpp:20 | true exactly when a key follows the current one |
| HashTableIterators.KeyIterator.Next | hash_table/hash_table_iterator.hpp:21 | advances exactly when `HasNext` held, by one position; otherwise the cursor is unchanged |
| HashTableIterators.KeyIterator.TryGetCurrent | hash_table/hash_table_iterator.hpp:22 | `Some` of the key at the cursor exactly when the table has keys |
| HashTableIterators.KeyIterator.GetCurrent | hash_table/hash_table_iterator.hpp:24 | the key at the cursor exactly when the table has keys, else `NoCurrentElement` |
| HashTableIterators.KeyIterator.FindNextNonEmpty | hash_table/hash_table_iterator.hpp:27 | moves to `NextNonEmpty` without changing the position; fails only when no keys remain |
| HashTableIterators.CollectKeys | tests_iterator.cpp:22-76 | the loop "read current; repeat while `next()`" reads every key once in order, and `next()` succeeds `n - 1` times |
| FileStreams.RecordOfEveryByte | file_stream/file_stream.hpp:37 | every byte of record `n`'s range maps back to record `n`, so record ranges do not overlap |
| FileStreams.WriteAt | file_stream/file_stream.hpp:24 | the record at the position is replaced, or the file grows to it with gap records in the hole; all other records are unchanged |
| FileStreams.Overwrite | file_stream/file_stream.hpp:28 | the items, followed by the old records beyond them |
| FileStreams.OverwriteStep | file_stream/file_stream.hpp:24-28 | writing item `k` after the first `k` items is the overwrite by the first `k + 1` |
| FileStreams.OverwriteRoundTrip | file_stream/file_stream.hpp:28-32 | a file not longer than the items is replaced by exactly the items |
| FileStreams.FileStream.constructor | file_stream/file_stream.hpp:19 | an open stream over the existing records, cursor at 0 |
| FileStreams.FileStream.BytePosition | file_stream/file_stream.hpp:37 | `move_position_in_bytes`: a multiple of the record size; for a cursor at or after the start, the non-negative first byte of the cursor's record, which maps back to that record; for a negative cursor, a negative offset at least one record before the start |
| FileStreams.FileStream.Read | file_stream/file_stream.hpp:22 | the record under the cursor and a step forward, the byte offset advancing by one record size; past either end `EndOfStream`; closed `Closed`; the cursor does not move on failure |
| FileStreams.FileStream.Write | file_stream/file_stream.hpp:24 | succeeds exactly when open with a non-negative cursor; records become `WriteAt` of the cursor, and the cursor and byte offset step forward one record; `Closed` when closed, `InvalidPosition` for a negative cursor |
| FileStreams.FileStream.MovePosition | file_stream/file_stream.hpp:25 | when open, succeeds and `get_current_pos` then returns `n`; when closed, `Closed` and the cursor stays; the records are unchanged |
| FileStreams.FileStream.Reset | file_stream/file_stream.hpp:26 | when open, succeeds and `get_current_pos` then returns 0; when closed, `Closed` and the cursor stays |
| FileStreams.FileStream.Close | file_stream/file_stream.hpp:27 | the stream is closed; records and cursor are unchanged |
| FileStreams.FileStream.FromSequence | file_stream/file_stream.hpp:28 | rewinds and writes the items in order: records become `Overwrite(old, items)`, cursor after the last item; when closed, `Closed` with nothing changed |
| FileStreams.FileStream.ToSequence | file_stream/file_stream.hpp:32 | rewinds and reads every record in file order; the cursor ends at the end; when closed, `Closed` |
| FileStreams.ImportExport | file_stream/file_stream.hpp:28-32 | `to_sequence` after `from_sequence` starts with the items, and is exactly them when the file was not longer |
| Caches.RemoveFirst | cache.hpp:35 | one element shorter exactly when the key occurs; other elements kept; distinctness kept |
| Caches.RemoveFirstAt | cache.hpp:35 | removing the first occurrence at index `i` splices `s[..i]` and `s[i+1..]` |
| Caches.RemoveFirstAbsent | cache.hpp:35 | removing an absent key changes nothing |
| Caches.Touch | cache.hpp:35 | the key ends up most recent, exactly once; other keys kept; distinctness kept (their relative order: `TouchFollowsHistory`) |
| Caches.Evictee | cache.hpp:23-35 | only a key that is not yet resident can cause an eviction; the evicted key is the least recently used one; without eviction there is room or the key is already resident |
| Caches.Access | cache.hpp:35 | the recency order after an access: the key is last; no new keys except it; only the evicted key is dropped; within capacity when the order was (the relative order of the rest: `AccessFollowsHistory`) |
| Caches.Admitted | cache.hpp:23-25 | the resident entries after an access: the key holds the new value; every other resident key except the evicted one keeps its value; the evicted key is gone |
| Caches.AccessKeepsInv | cache.hpp:13-25 | every access keeps the LRU invariant; afterwards the key is resident with its value and most recent; only the least recently used key can be evicted |
| Caches.EvictionExample | cache.hpp:23-35 | with capacity 2, accesses A, B, A, C evict B and leave order `[A, C]` |
| Caches.LastUse | cache.hpp:35 | the position of the last use of a key in an access history, or -1: the history holds the key there and never after |
| Caches.TouchFollowsHistory | cache.hpp:35 | if the order lists its keys by last use in history `h`, then after a hit on `k` it lists them by last use in `h + [k]`: `k` moves to the end and the other keys keep their relative order |
| Caches.AccessFollowsHistory | cache.hpp:23-35 | the same for every access (a hit, a miss with or without an eviction, a `put`): the order stays sorted by last use |
| Caches.EvicteeLeastRecent | cache.hpp:23-35 | in an order sorted by last use, the evicted key was used before every other key in the order: it is the least recently used one |
| Caches.DropKeepsRecency | cache.hpp:35 | cutting one key out of an order sorted by last use leaves it sorted |
| Caches.AppendMostRecent | cache.hpp:35 | appending the key just used, absent from the order, keeps the order sorted by last use in the extended history |
| Caches.StoreLookup | cache.hpp:38 | the chain lookup `Find` over the whole store: found exactly when some record has the key; the value is that of the first such record |
| Caches.ScanIgnoresLaterPuts | cache.hpp:25-38 | records appended after a record with the key do not change what the scan finds |
| Caches.HitRatio | cache.hpp:32 | 0 with no requests; otherwise `r * (hits + misses) == hits`; always in `[0, 1]` |
| Caches.Cache.constructor | cache.hpp:20 | an empty cache with the given capacity over the existing store, counters 0, empty history, so in recency order |
| Caches.Cache.GetSize | cache.hpp:30 | the number of resident keys, which equals the recency order's length and is at most `capacity` |
| Caches.Cache.GetHitRatio | cache.hpp:32 | `HitRatio` of the counters |
| Caches.Cache.ResetStatistics | cache.hpp:26 | both counters 0; recency order, access history and table unchanged |
| Caches.Cache.UpdateAccessOrder | cache.hpp:35 | the recency order becomes `Touch(old, key)`; the use of `key` is recorded in the history and the recency order stays sorted by last use |
| Caches.Cache.ReadFromStream | cache.hpp:38 | scans the store: the result is `StoreLookup` of the records; the store is unchanged |
| Caches.Cache.WriteToStream | cache.hpp:36 | appends the record at the end of the store |
| Caches.Cache.Admit | cache.hpp:23-25 | stores the key, evicts the least recently used key when over capacity, marks the key most recent; keeps `Valid` and the recency order sorted by last use |
| Caches.Cache.Get | cache.hpp:23 | hit: table value, key refreshed, hits + 1; miss: misses + 1, the store's value admitted, or `KeyNotFound` with nothing else changed; the recency order stays sorted by last use |
| Caches.Cache.Put | cache.hpp:25 | appends the record to the store, then admits the key as a miss would; the recency order stays sorted by last use |
| Caches.RunWorkload | benchmark_cache.cpp:31-40 | after a loop of `get` calls, failed ones included, hits + misses grew by the number of requests, and the recency order stays sorted by last use |
| Scenarios.FreshTables | tests_hash.cpp:10-25 | a fresh table has count 0 and capacity 8, or the requested 16 |
| Scenarios.BucketSizeBounds | tests_hash.cpp:41-52 | the 10 buckets are empty; indexes -1 and 20 are out of range |
| Scenarios.CalcValue | tests_hash.cpp:54-62 | `calc_value` is the user hash itself: `key * 2` gives 10 for 5 and 20 for 10 |
| Scenarios.ResizeEmpty | tests_hash.cpp:173-182 | `resize` on an empty 4-bucket table, as `SetCapacity(2 * capacity)`, gives 8 buckets |
| Scenarios.GrowthFromSmallTables | tests_hash.cpp:151-171 | ten keys give 16 buckets from 4 and 20 from 5, and every key keeps its value |
| Scenarios.SetThreeDeleteOneSetTwo | tests_hash.cpp:383-388 | after set 1, 2, 3, del 2, set 4, 5 the dictionary is `{1, 3, 4, 5}` with their values |
| Scenarios.ChainedCalls | tests_hash.cpp:379-396 | set 1, 2, 3, del 2, set 4, 5: count 4, key 2 absent, the others present |
| Scenarios.Collisions | tests_hash.cpp:258-272 | keys 1, 4 and 7 share a bucket and each keeps its value |
| Scenarios.DeleteAbsent | tests_hash.cpp:130-138 | deleting an absent key leaves count 0 or 1 as before |
| Scenarios.EmptyIteration | tests_iterator.cpp:78-92 | on an empty table `has_next` and `next` are false |
| Scenarios.SingleKeyIteration | tests_iterator.cpp:94-113 | one key: current is that key, `has_next` and `next` are false, and current is still that key |
| Scenarios.SameBucketTable | tests_iterator.cpp:29-33 | keys 4, 12 and 20 added to an 8-bucket table share bucket 4, chained in the order they were added; every other bucket is empty |
| Scenarios.SameBucketIteration | tests_iterator.cpp:22-45 | three keys in one bucket are read in the order they were added, `[4, 12, 20]`; `next` succeeds twice |
| Buckets.FlattenSingleBucket | hash_table/hash_table_iterator.hpp:14-15 | when every bucket but one is empty, the iteration order is that bucket's chain |
| Scenarios.EvictionRun | cache.hpp:23-35 | requests 1, 2, 1, 3 on capacity 2: one hit, three misses, order `[1, 3]`, and the table holds 1 and 3 but not 2 |

## Left out

- fstream and file paths: real `fstream` I/O, file paths, `open_file` and
  the byte layout of records are not modelled. The file is a sequence of
  records; a byte offset is `n * recordSize` (`FileStreams.ByteOffset`).
- Opening failures: a file that cannot be opened is not modelled; every
  stream starts open.
- The destructors are not modelled.
- `get_hit_count` and `get_miss_count` (cache.hpp:28-29) are not separate
  members: the counters are the fields `hitCount` and `missCount`, read
  directly.
- FileStreams.FileStream.GetCurrentPos (file_stream.hpp:30): it returns the
  cursor and has no contract of its own. `MovePosition` and `Reset` state
  their effect through it.
- The interface headers `i_dictionary.hpp`, `idictionary.hpp`,
  `i_stream.hpp` and `i_iterator.hpp` only declare signatures. The model
  uses the concrete classes.
- `calc_value` and `resize` are called by the tests but are not declared in
  hash.hpp, so the class has no members of those names. `calc_value` is the
  raw user hash, the field `hashFunction` (`Scenarios.CalcValue`). `resize`
  doubles the bucket count unconditionally, which is
  `SetCapacity(2 * capacity)` (`Scenarios.ResizeEmpty`).
- HashTables.HashTable.Add and HashTables.HashTable.Remove: hash.hpp:41-42
  declare them without a body. They are modelled as `set` and `del`, so
  `add` overwrites a present key rather than rejecting it; the headers do
  not fix which of the two the repository does.
- HashTables.HashTable.GetLoadFactor and Caches.HitRatio: these are exact
  real quotients, not IEEE doubles; no rounding is modelled.
- HashTables.HashTable.Set: `int` overflow of `count`, `capacity` or the
  doubled capacity is not modelled; integers are unbounded.
- Iteration during mutation: an iterator keeps the bucket array it was
  created over. What happens when its table changes during iteration is
  not modelled.
- Caches.Cache.constructor: it requires `capacity >= 1`. With capacity 0,
  eviction would pop an empty recency order, and the headers do not fix
  what happens then.
- HashTables.HashTable.constructor: it requires a positive capacity. With
  zero or negative buckets, `hash` has no bucket to return, and the headers
  do not fix what happens then.
- HashTables.HashTable.Rehash and HashTables.HashTable.SetCapacity: they
  require `newCapacity > 0` for the same reason. A request for zero or
  negative buckets is not modelled.
- FileStreams.FileStream.Write: a write at a negative cursor is the error
  `InvalidPosition`. The headers do not fix what such a write does;
  `move_position` itself accepts any value.
- FileStreams.FileStream.FromSequence: the file is not truncated, so
  records beyond the imported items survive. The exact round trip holds
  only when the file was not longer (`OverwriteRoundTrip`).
- Caches.StoreLookup: the scan returns the first record with the key (a
  modelling choice). Because `put` appends, a key that was put again and
  then evicted is read back with its oldest value. `ScanIgnoresLaterPuts`
  states this outright.

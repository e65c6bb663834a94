/** Concrete runs of the table, the iterator and the cache, each stating the
    outcome the repository's tests expect (tests_hash.cpp, tests_iterator.cpp)
    or the eviction order of an LRU cache of capacity 2. */
module Scenarios {
  import opened Wrappers
  import opened Entries
  import opened Buckets
  import opened HashTables
  import opened HashTableIterators
  import opened Caches

  /** The hash the tests use: `key % 100` with C++'s truncating remainder. */
  function SimpleHash(key: int): int
  {
    TruncRem(key, 100)
  }

  /** tests_hash.cpp:10-25: a fresh table is empty and has the requested
      capacity, 8 by default. */
  method FreshTables() returns (count: int, defaultCapacity: int, customCapacity: int)
    ensures count == 0 && defaultCapacity == 8 && customCapacity == 16
  {
    var t := new HashTable<int, int>(SimpleHash);
    var u := new HashTable<int, int>(k => k, 16);
    count := t.GetCount();
    defaultCapacity := t.GetCapacity();
    customCapacity := u.GetCapacity();
  }

  /** tests_hash.cpp:41-52: every bucket of a fresh 10-bucket table is empty,
      and indexes -1 and 20 are out of range. */
  method BucketSizeBounds() returns (sizes: seq<Result<int, TableError>>, below: Result<int, TableError>, above: Result<int, TableError>)
    ensures |sizes| == 10 && forall i :: 0 <= i < 10 ==> sizes[i] == Ok(0)
    ensures below == Err(IndexOutOfRange) && above == Err(IndexOutOfRange)
  {
    var t := new HashTable<int, int>(SimpleHash, 10);
    sizes := [];
    for i := 0 to 10
      invariant t.Valid() && t.count == 0 && t.capacity == 10
      invariant |sizes| == i && forall j :: 0 <= j < i ==> sizes[j] == Ok(0)
    {
      sizes := sizes + [t.GetBucketSize(i)];
    }
    below := t.GetBucketSize(-1);
    above := t.GetBucketSize(20);
  }

  /** tests_hash.cpp:151-171 and 237-256: ten keys take a 4-bucket table to
      16 buckets and a 5-bucket table to 20, and every key keeps its value. */
  method GrowthFromSmallTables() returns (small: HashTable<int, int>, five: HashTable<int, int>)
    ensures small.Valid() && small.count == 10 && small.capacity == 16
    ensures five.Valid() && five.count == 10 && five.capacity == 20
    ensures forall k :: 0 <= k < 10 ==> small.Get(k) == Ok(k * 10) && five.Get(k) == Ok(k * 10)
  {
    small := InsertTenKeys(4);
    five := InsertTenKeys(5);
    GrowthExamples();
  }

  /** tests_hash.cpp:54-62: `calc_value` is the user hash itself, before
      any reduction to a bucket: `key * 2` gives 10 for 5 and 20 for 10. */
  method CalcValue() returns (five: int, ten: int)
    ensures five == 10 && ten == 20
  {
    var t := new HashTable<int, int>(k => k * 2);
    five := t.hashFunction(5);
    ten := t.hashFunction(10);
  }

  /** tests_hash.cpp:173-182: `resize` doubles the bucket count of an empty
      4-bucket table unconditionally, which is `SetCapacity(2 * capacity)`. */
  method ResizeEmpty() returns (before: int, after: int)
    ensures before == 4 && after == 8
  {
    var t := new HashTable<int, int>(SimpleHash, 4);
    before := t.GetCapacity();
    t.SetCapacity(2 * t.capacity);
    after := t.GetCapacity();
  }

  /** Keys 0..9 with values `10 * key`, set one by one into a fresh table. */
  method InsertTenKeys(initial: int) returns (t: HashTable<int, int>)
    requires initial > 0
    ensures fresh(t) && t.Valid() && t.count == 10
    ensures t.capacity == CapacityAfterInserts(initial, 10)
    ensures forall k :: k in t.Contents ==> 0 <= k < 10
    ensures forall k :: 0 <= k < 10 ==> k in t.Contents && t.Contents[k] == k * 10
  {
    t := new HashTable<int, int>(SimpleHash, initial);
    for i := 0 to 10
      invariant t.Valid() && t.count == i
      invariant t.capacity == CapacityAfterInserts(initial, i)
      invariant forall k :: k in t.Contents ==> 0 <= k < i
      invariant forall k :: 0 <= k < i ==> k in t.Contents && t.Contents[k] == k * 10
    {
      assert i !in t.Contents;
      t.Set(i, i * 10);
    }
  }

  /** tests_hash.cpp:383-386: set 1, 2, 3 then del 2 on a 4-bucket table. */
  method SetThreeDeleteOne() returns (t: HashTable<int, int>)
    ensures fresh(t) && t.Valid() && t.capacity == 4
    ensures t.Contents == map[1 := 10, 3 := 30] && t.count == 2
  {
    t := new HashTable<int, int>(SimpleHash, 4);
    t.Set(1, 10);
    assert t.Contents == map[1 := 10];
    t.Set(2, 20);
    assert t.Contents == map[1 := 10, 2 := 20];
    t.Set(3, 30);
    assert t.Contents == map[1 := 10, 2 := 20, 3 := 30];
    t.Del(2);
    assert t.Contents == map[1 := 10, 3 := 30];
  }

  /** tests_hash.cpp:383-388: ... then set 4 and 5. */
  method SetThreeDeleteOneSetTwo() returns (t: HashTable<int, int>)
    ensures fresh(t) && t.Valid()
    ensures t.Contents == map[1 := 10, 3 := 30, 4 := 40, 5 := 50]
  {
    t := SetThreeDeleteOne();
    t.Set(4, 40);
    assert t.Contents == map[1 := 10, 3 := 30, 4 := 40];
    t.Set(5, 50);
    assert t.Contents == map[1 := 10, 3 := 30, 4 := 40, 5 := 50];
  }

  /** tests_hash.cpp:379-396: set 1, 2, 3, del 2, set 4, 5 leaves four keys,
      2 not among them. */
  method ChainedCalls() returns (count: int, present: seq<bool>)
    ensures count == 4
    ensures present == [true, false, true, true, true]
  {
    var t := SetThreeDeleteOneSetTwo();
    count := t.GetCount();
    present := [t.ContainsKey(1), t.ContainsKey(2), t.ContainsKey(3), t.ContainsKey(4), t.ContainsKey(5)];
  }

  /** tests_hash.cpp:258-272: keys 1, 4 and 7 share bucket 1 of a 3-bucket
      table and stay independently retrievable. */
  method Collisions() returns (sameBucket: bool, count: int, values: seq<Result<int, TableError>>)
    ensures sameBucket && count == 3
    ensures values == [Ok(1), Ok(4), Ok(7)]
  {
    var t := new HashTable<int, int>(k => TruncRem(k, 3), 3);
    sameBucket := t.Hash(1) == t.Hash(4) == t.Hash(7);
    t.Set(1, 1);
    t.Set(4, 4);
    assert t.count == 2;
    t.Set(7, 7);
    count := t.GetCount();
    values := [t.Get(1), t.Get(4), t.Get(7)];
  }

  /** tests_hash.cpp:130-138 and 351-362: deleting an absent key changes
      nothing, also on an empty table. */
  method DeleteAbsent() returns (emptyCount: int, oneCount: int)
    ensures emptyCount == 0 && oneCount == 1
  {
    var e := new HashTable<int, int>(SimpleHash);
    e.Del(999);
    emptyCount := e.GetCount();
    var t := new HashTable<int, int>(SimpleHash);
    t.Set(1, 10);
    t.Del(999);
    oneCount := t.GetCount();
  }

  /** tests_iterator.cpp:78-92: over an empty table there is no next key and
      `next()` fails. */
  method EmptyIteration() returns (hasNext: bool, advanced: bool)
    ensures !hasNext && !advanced
  {
    var t := new HashTable<int, int>(SimpleHash);
    var it := t.GetKeysIterator();
    hasNext := it.HasNext();
    advanced := it.Next();
  }

  /** tests_iterator.cpp:94-113: with one key the iterator starts on it, has
      no next key, fails to advance, and still yields the key. */
  method SingleKeyIteration() returns (first: Result<int, IteratorError>, hasNext: bool, advanced: bool, after: Result<int, IteratorError>)
    ensures first == Ok(5) && !hasNext && !advanced && after == Ok(5)
  {
    var t := new HashTable<int, int>(SimpleHash);
    t.Set(5, 50);
    var it := t.GetKeysIterator();
    assert it.Keys() == [5];
    first := it.GetCurrent();
    hasNext := it.HasNext();
    advanced := it.Next();
    after := it.GetCurrent();
  }

  /** Keys 4, 12 and 20 share bucket 4 of an 8-bucket table. */
  lemma SameBucketSlots()
    ensures SlotOf(SimpleHash, 4, 8) == 4 && SlotOf(SimpleHash, 12, 8) == 4 && SlotOf(SimpleHash, 20, 8) == 4
    ensures KeysOf([Entry(4, 40), Entry(12, 120), Entry(20, 200)]) == [4, 12, 20]
  {
  }

  /** tests_iterator.cpp:29-33: keys 4, 12 and 20 added to an 8-bucket
      table all land in bucket 4, chained in the order they were added. */
  method SameBucketTable() returns (t: HashTable<int, int>)
    ensures fresh(t) && t.Valid() && t.capacity == 8
    ensures t.buckets[4] == [Entry(4, 40), Entry(12, 120), Entry(20, 200)]
    ensures forall j :: 0 <= j < 8 && j != 4 ==> t.buckets[j] == []
  {
    t := new HashTable<int, int>(SimpleHash, 8);
    SameBucketSlots();
    t.Add(4, 40);
    assert t.buckets[4] == [Entry(4, 40)] && forall j :: 0 <= j < 8 && j != 4 ==> t.buckets[j] == [];
    t.Add(12, 120);
    assert t.buckets[4] == [Entry(4, 40), Entry(12, 120)] && forall j :: 0 <= j < 8 && j != 4 ==> t.buckets[j] == [];
    t.Add(20, 200);
  }

  /** tests_iterator.cpp:22-45: three keys in one bucket; the do/while loop
      reads all three, in the order they were added, and `next()` succeeds
      twice. */
  method SameBucketIteration() returns (keys: seq<int>, advances: int)
    ensures keys == [4, 12, 20] && advances == 2
  {
    var t := SameBucketTable();
    FlattenSingleBucket(t.buckets, 4);
    SameBucketSlots();
    var it := t.GetKeysIterator();
    keys, advances := CollectKeys(it);
  }

  /** The store of `EvictionRun` holds each of the keys 1, 2 and 3 once. */
  lemma ThreeRecordStore()
    ensures StoreLookup([Entry(1, 10), Entry(2, 20), Entry(3, 30)], 1) == Some(10)
    ensures StoreLookup([Entry(1, 10), Entry(2, 20), Entry(3, 30)], 2) == Some(20)
    ensures StoreLookup([Entry(1, 10), Entry(2, 20), Entry(3, 30)], 3) == Some(30)
  {
  }

  /** A fresh cache of capacity 2 over the store 1, 2, 3 after the request
      1: a miss served from the store. */
  method FirstRequest() returns (c: Cache<int, int>)
    ensures fresh(c) && fresh(c.table) && fresh(c.stream) && c.Valid()
    ensures c.capacity == 2 && c.stream.records == [Entry(1, 10), Entry(2, 20), Entry(3, 30)]
    ensures c.accessOrder == [1] && c.hitCount == 0 && c.missCount == 1
  {
    ThreeRecordStore();
    c := new Cache<int, int>(2, SimpleHash, [Entry(1, 10), Entry(2, 20), Entry(3, 30)], Entry(0, 0), 8);
    var _ := c.Get(1);
  }

  /** ... then the request 2: another miss; both keys fit. */
  method SecondRequest() returns (c: Cache<int, int>)
    ensures fresh(c) && fresh(c.table) && fresh(c.stream) && c.Valid()
    ensures c.capacity == 2 && c.stream.records == [Entry(1, 10), Entry(2, 20), Entry(3, 30)]
    ensures c.accessOrder == [1, 2] && c.hitCount == 0 && c.missCount == 2
  {
    c := FirstRequest();
    ThreeRecordStore();
    assert 2 !in c.accessOrder && Access([1], 2, 2) == [1, 2];
    var _ := c.Get(2);
  }

  /** ... then the request 1 again: a hit, which makes 2 the least recent. */
  method ThirdRequest() returns (c: Cache<int, int>)
    ensures fresh(c) && fresh(c.table) && fresh(c.stream) && c.Valid()
    ensures c.capacity == 2 && c.stream.records == [Entry(1, 10), Entry(2, 20), Entry(3, 30)]
    ensures c.accessOrder == [2, 1] && c.hitCount == 1 && c.missCount == 2
  {
    c := SecondRequest();
    EvictionExample(1, 2, 3, 10, 20, 30);
    var _ := c.Get(1);
  }

  /** ... then the request 3: a miss that evicts 2, the least recent key. */
  method FourthRequest() returns (c: Cache<int, int>)
    ensures fresh(c) && fresh(c.table) && fresh(c.stream) && c.Valid()
    ensures c.accessOrder == [1, 3] && c.hitCount == 1 && c.missCount == 3
  {
    c := ThirdRequest();
    ThreeRecordStore();
    assert 3 !in c.accessOrder && Access([2, 1], 3, 2) == [1, 3];
    var _ := c.Get(3);
  }

  /** An LRU cache of capacity 2 over a store holding the keys 1, 2 and 3:
      the requests 1, 2, 1, 3 miss, miss, hit, miss, and evict 2 from the
      table. */
  method EvictionRun() returns (order: seq<int>, hits: int, misses: int, size: int, present: seq<bool>)
    ensures order == [1, 3] && hits == 1 && misses == 3
    ensures size == 2 && present == [true, false, true]
  {
    var c := FourthRequest();
    assert 1 in c.accessOrder && 3 in c.accessOrder && 2 !in c.accessOrder;
    order := c.accessOrder;
    hits, misses := c.hitCount, c.missCount;
    size := c.GetSize();
    present := [c.table.ContainsKey(1), c.table.ContainsKey(2), c.table.ContainsKey(3)];
  }
}

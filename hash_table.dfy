/** The chained hash table `hash_table<t_key, t_value>` (hash.hpp:8-77).

    The object owns an array of buckets, each a chain of entries, the number
    of entries `count`, the number of buckets `capacity` and the user's hash
    function. The ghost field `Contents` is the dictionary the table stands
    for; `Valid()` ties it to the buckets through the invariant of module
    Buckets. */
module HashTables {
  import opened Wrappers
  import opened Entries
  import opened Buckets
  import opened HashTableIterators

  datatype TableError = KeyNotFound | IndexOutOfRange

  /** Bucket count of a table built without an explicit capacity (hash.hpp:27). */
  const DefaultCapacity: int := 8

  /** Capacity after a `set` that leaves `count` entries in `capacity` buckets:
      doubled once when the load factor count/capacity exceeds 3/4. */
  function GrownCapacity(count: int, capacity: int): (r: int)
    ensures r == capacity || r == 2 * capacity
    ensures capacity > 0 ==> (r > capacity <==> 4 * count > 3 * capacity)
  {
    if 4 * count > 3 * capacity then 2 * capacity else capacity
  }

  /** Growth restores the load bound: if the table was at most 3/4 full before
      one more entry arrived, it is at most 3/4 full after `set`. */
  lemma GrowthRestoresLoad(count: int, capacity: int)
    requires capacity > 0 && 4 * (count - 1) <= 3 * capacity
    ensures GrownCapacity(count, capacity) >= capacity
    ensures 4 * count <= 3 * GrownCapacity(count, capacity)
  {
    if capacity == 1 {
      assert count <= 1;
    }
  }

  /** `a / b` as an exact real number. */
  function Ratio(a: nat, b: int): (r: real)
    requires b > 0
    ensures r >= 0.0 && r * b as real == a as real
  {
    a as real / b as real
  }

  /** Capacity after `n` calls of `set` with distinct new keys on an empty
      table of `initial` buckets. */
  function CapacityAfterInserts(initial: int, n: nat): int
  {
    if n == 0 then initial else GrownCapacity(n, CapacityAfterInserts(initial, n - 1))
  }

  /** Ten new keys take a 4-bucket table to 16 buckets and a 5-bucket table to
      20 buckets; three keys leave 8 buckets alone. */
  lemma GrowthExamples()
    ensures CapacityAfterInserts(4, 10) == 16
    ensures CapacityAfterInserts(5, 10) == 20
    ensures CapacityAfterInserts(8, 3) == 8
  {
  }

  /** Left fold, the shape of `reduce` (hash.hpp:62). */
  function FoldLeft<A, T>(f: (A, T) -> A, acc: A, xs: seq<T>): A
  {
    if xs == [] then acc else FoldLeft(f, f(acc, xs[0]), xs[1..])
  }

  function CountStep<T>(acc: int, x: T): int
  {
    acc + 1
  }

  lemma {:induction false} FoldCounts<T>(acc: int, xs: seq<T>)
    ensures FoldLeft(CountStep, acc, xs) == acc + |xs|
    decreases |xs|
  {
    if xs != [] {
      FoldCounts(acc + 1, xs[1..]);
    }
  }

  /** Rehash progress: `moved` holds, with their values, exactly the entries
      of buckets before `i` and the first `j` entries of bucket `i`. */
  ghost predicate MovedBefore<K, V>(b: seq<Chain<K, V>>, hash: K -> int, m: map<K, V>, moved: map<K, V>, i: int, j: int)
    requires |b| > 0 && 0 <= i <= |b| && (i < |b| ==> 0 <= j <= |b[i]|)
  {
    && (forall k :: k in moved ==> k in m && moved[k] == m[k])
    && (forall k :: k in m ==>
         (k in moved <==> SlotOf(hash, k, |b|) < i
                          || (i < |b| && SlotOf(hash, k, |b|) == i && IndexOf(b[i][..j], k) >= 0)))
  }

  /** One rehash step: entry `j` of bucket `i` is new to the rebuilt array,
      and appending it to its new bucket keeps the rebuilt array valid. */
  lemma MoveOne<K, V>(b: seq<Chain<K, V>>, hash: K -> int, m: map<K, V>,
                      nb: seq<Chain<K, V>>, moved: map<K, V>, i: int, j: int)
    requires Inv(b, hash, m) && Inv(nb, hash, moved)
    requires 0 <= i < |b| && 0 <= j < |b[i]|
    requires MovedBefore(b, hash, m, moved, i, j)
    ensures var e := b[i][j];
            var s := SlotOf(hash, e.key, |nb|);
            && e.key !in moved
            && Inv(nb[s := nb[s] + [e]], hash, moved[e.key := e.value])
            && MovedBefore(b, hash, m, moved[e.key := e.value], i, j + 1)
  {
    var e := b[i][j];
    NotYetMoved(b, hash, m, moved, i, j);
    InsertNew(nb, hash, moved, e.key, e.value);
    MoveProgress(b, hash, m, moved, i, j);
  }

  /** Entry `j` of bucket `i` is not among the keys moved so far. */
  lemma NotYetMoved<K, V>(b: seq<Chain<K, V>>, hash: K -> int, m: map<K, V>, moved: map<K, V>, i: int, j: int)
    requires Inv(b, hash, m)
    requires 0 <= i < |b| && 0 <= j < |b[i]|
    requires MovedBefore(b, hash, m, moved, i, j)
    ensures b[i][j].key in m && m[b[i][j].key] == b[i][j].value
    ensures b[i][j].key !in moved
  {
    var e := b[i][j];
    assert DistinctKeys(b[i]);
    assert e.key in m && SlotOf(hash, e.key, |b|) == i;
    assert forall p :: 0 <= p < j ==> b[i][..j][p].key != e.key;
  }

  /** Moving entry `j` of bucket `i` advances the progress predicate by one. */
  lemma MoveProgress<K, V>(b: seq<Chain<K, V>>, hash: K -> int, m: map<K, V>, moved: map<K, V>, i: int, j: int)
    requires Inv(b, hash, m)
    requires 0 <= i < |b| && 0 <= j < |b[i]|
    requires MovedBefore(b, hash, m, moved, i, j)
    ensures MovedBefore(b, hash, m, moved[b[i][j].key := b[i][j].value], i, j + 1)
  {
    var e := b[i][j];
    assert e.key in m && m[e.key] == e.value && SlotOf(hash, e.key, |b|) == i;
    forall k | k in m
      ensures IndexOf(b[i][..j + 1], k) >= 0 <==> (IndexOf(b[i][..j], k) >= 0 || e.key == k)
    {
      HasKeyPrefix(b[i], j, k);
    }
  }

  /** After the whole of bucket `i`, the rehash has moved every key of the
      buckets before `i + 1`. */
  lemma NextBucket<K, V>(b: seq<Chain<K, V>>, hash: K -> int, m: map<K, V>, moved: map<K, V>, i: int)
    requires Inv(b, hash, m) && 0 <= i < |b|
    requires MovedBefore(b, hash, m, moved, i, |b[i]|)
    ensures MovedBefore(b, hash, m, moved, i + 1, 0)
  {
    assert b[i][..|b[i]|] == b[i];
    forall k | k in m
      ensures IndexOf(b[i], k) >= 0 <==> SlotOf(hash, k, |b|) == i
    {
      var r := IndexOf(b[i], k);
      if r >= 0 {
        assert b[i][r].key == k;
      }
    }
  }

  /** Once every bucket is done, the rebuilt array holds exactly `m`. */
  lemma AllMoved<K, V>(b: seq<Chain<K, V>>, hash: K -> int, m: map<K, V>, moved: map<K, V>)
    requires Inv(b, hash, m)
    requires MovedBefore(b, hash, m, moved, |b|, 0)
    ensures moved == m
  {
    forall k | k in m ensures SlotOf(hash, k, |b|) < |b| {
    }
  }

  class HashTable<K(==), V> {
    var buckets: seq<Chain<K, V>>
    var count: int
    var capacity: int
    const hashFunction: K -> int
    ghost var Contents: map<K, V>

    /** The consistency `is_consistent` checks, plus the link to `Contents`. */
    ghost predicate Valid()
      reads this
    {
      capacity == |buckets| && count == TotalSize(buckets) && Inv(buckets, hashFunction, Contents)
    }

    /** hash.hpp:27 */
    constructor (hashFunction: K -> int, capacity: int := DefaultCapacity)
      requires capacity > 0
      ensures Valid() && Contents == map[] && count == 0 && buckets == EmptyBuckets(capacity)
      ensures this.capacity == capacity && this.hashFunction == hashFunction
    {
      this.hashFunction := hashFunction;
      this.capacity := capacity;
      buckets := EmptyBuckets(capacity);
      count := 0;
      Contents := map[];
      new;
      EmptyInv<K, V>(capacity, hashFunction);
    }

    /** A table over buckets already laid out for `hashFunction`; the tables
        that `map` and `where` return. */
    constructor FromBuckets(hashFunction: K -> int, buckets: seq<Chain<K, V>>, ghost contents: map<K, V>)
      requires Inv(buckets, hashFunction, contents)
      ensures Valid() && Contents == contents && this.buckets == buckets
      ensures this.hashFunction == hashFunction
    {
      this.hashFunction := hashFunction;
      this.buckets := buckets;
      capacity := |buckets|;
      count := TotalSize(buckets);
      Contents := contents;
    }

    /** hash.hpp:30 */
    function GetCount(): (r: int)
      reads this
      requires Valid()
      ensures r == |Contents|
    {
      SizeMatches(buckets, hashFunction, Contents);
      count
    }

    /** The bucket of `key` (hash.hpp:55). */
    function Hash(key: K): (r: int)
      reads this
      requires capacity > 0
      ensures 0 <= r < capacity
      ensures r == hashFunction(key) % capacity
    {
      SlotOf(hashFunction, key, capacity)
    }

    /** hash.hpp:31 */
    function GetCapacity(): (r: int)
      reads this
      requires Valid()
      ensures r == |buckets| && r > 0
    {
      capacity
    }

    /** hash.hpp:50: `count / capacity`, as an exact ratio. */
    function GetLoadFactor(): (r: real)
      reads this
      requires Valid()
      ensures r >= 0.0
      ensures r * capacity as real == count as real
    {
      Ratio(count, capacity)
    }

    /** hash.hpp:34; a missing key is `std::out_of_range`. */
    function Get(key: K): (r: Result<V, TableError>)
      reads this
      requires Valid()
      ensures r == if key in Contents then Ok(Contents[key]) else Err(KeyNotFound)
    {
      LookupInv(buckets, hashFunction, Contents, key);
      match Find(buckets[Hash(key)], key)
      case Some(v) => Ok(v)
      case None => Err(KeyNotFound)
    }

    /** hash.hpp:44 */
    function TryGet(key: K): (r: Option<V>)
      reads this
      requires Valid()
      ensures r == if key in Contents then Some(Contents[key]) else None
    {
      LookupInv(buckets, hashFunction, Contents, key);
      Find(buckets[Hash(key)], key)
    }

    /** hash.hpp:36 */
    function ContainsKey(key: K): (r: bool)
      reads this
      requires Valid()
      ensures r <==> key in Contents
    {
      IndexOf(buckets[Hash(key)], key) >= 0
    }

    /** hash.hpp:32 */
    function GetBucketSize(index: int): (r: Result<int, TableError>)
      reads this
      requires Valid()
      ensures r.Ok? <==> 0 <= index < capacity
      ensures r.Ok? ==> r.value == |buckets[index]| && r.value <= count
      ensures !(0 <= index < capacity) ==> r == Err(IndexOutOfRange)
    {
      if 0 <= index < capacity then
        PrefixStep(buckets, index);
        SuffixNonEmpty(buckets, index + 1);
        Ok(|buckets[index]|)
      else
        Err(IndexOutOfRange)
    }

    /** hash.hpp:57 */
    function GetBucketDistribution(): (r: seq<int>)
      reads this
      requires Valid()
      ensures |r| == capacity && Sum(r) == count
      ensures forall i :: 0 <= i < capacity ==> r[i] == |buckets[i]|
    {
      var d := seq(|buckets|, i requires 0 <= i < |buckets| reads this => |buckets[i]|);
      SumOfSizes(buckets, d);
      d
    }

    /** hash.hpp:48: recount the chains and recheck every placement; never fails. */
    function IsConsistent(): (r: bool)
      reads this
      ensures Valid() ==> r
    {
      && capacity == |buckets| && capacity > 0
      && count == TotalSize(buckets)
      && forall i, j :: 0 <= i < |buckets| && 0 <= j < |buckets[i]| ==> Hash(buckets[i][j].key) == i
    }

    /** hash.hpp:69: the keys, bucket by bucket, each chain in insertion order. */
    function SelectKeys(): (r: seq<K>)
      reads this
      requires Valid()
      ensures |r| == count
      ensures forall k :: k in r ==> k in Contents
      ensures forall k :: k in Contents ==> k in r
      ensures forall p, q :: 0 <= p < q < |r| ==> r[p] != r[q]
    {
      FlattenAgrees(buckets, hashFunction, Contents);
      FlattenCovers(buckets, hashFunction, Contents);
      FlattenDistinct(buckets, hashFunction, Contents);
      KeysOf(Flatten(buckets))
    }

    /** hash.hpp:70: the values, in the order of `SelectKeys`. */
    function SelectValues(): (r: seq<V>)
      reads this
      requires Valid()
      ensures |r| == count
      ensures forall p :: 0 <= p < |r| ==> r[p] == Contents[SelectKeys()[p]]
    {
      FlattenAgrees(buckets, hashFunction, Contents);
      ValuesOf(Flatten(buckets))
    }

    /** hash.hpp:62: fold `f` over the values in bucket-then-chain order. */
    function Reduce<U>(initial: U, f: (U, V) -> U): (r: U)
      reads this
      requires Valid()
      ensures count == 0 ==> r == initial
      ensures r == FoldLeft(f, initial, SelectValues())
    {
      FoldLeft(f, initial, SelectValues())
    }

    /** `reduce` visits every resident value exactly once: counting with it
        gives `count`. */
    lemma ReduceCounts()
      requires Valid()
      ensures Reduce(0, CountStep) == count
    {
      FoldCounts(0, SelectValues());
    }

    /** hash.hpp:38: insert or update, then double on high load. */
    method Set(key: K, value: V)
      requires Valid()
      modifies this
      ensures Valid()
      ensures Contents == old(Contents)[key := value]
      ensures count == old(count) + (if key in old(Contents) then 0 else 1)
      ensures capacity == GrownCapacity(count, old(capacity))
      ensures 4 * old(count) <= 3 * old(capacity) ==> 4 * count <= 3 * capacity
      ensures capacity == old(capacity) && key !in old(Contents) ==>
                buckets == old(buckets)[Hash(key) := old(buckets)[Hash(key)] + [Entry(key, value)]]
    {
      if 4 * count <= 3 * capacity {
        GrowthRestoresLoad(count + 1, capacity);
      }
      var s := Hash(key);
      var i := IndexOf(buckets[s], key);
      if i >= 0 {
        ReplaceExisting(buckets, hashFunction, Contents, key, value);
        buckets := buckets[s := buckets[s][i := Entry(key, value)]];
      } else {
        InsertNew(buckets, hashFunction, Contents, key, value);
        buckets := buckets[s := buckets[s] + [Entry(key, value)]];
        count := count + 1;
      }
      Contents := Contents[key := value];
      if 4 * count > 3 * capacity {
        Rehash(2 * capacity);
      }
    }

    /** hash.hpp:41: the dictionary interface's insert, which is `set`. */
    method Add(key: K, value: V)
      requires Valid()
      modifies this
      ensures Valid()
      ensures Contents == old(Contents)[key := value]
      ensures count == old(count) + (if key in old(Contents) then 0 else 1)
      ensures capacity == GrownCapacity(count, old(capacity))
      ensures capacity == old(capacity) && key !in old(Contents) ==>
                buckets == old(buckets)[Hash(key) := old(buckets)[Hash(key)] + [Entry(key, value)]]
    {
      Set(key, value);
    }

    /** hash.hpp:39: remove `key` if present; an absent key is not an error. */
    method Del(key: K)
      requires Valid()
      modifies this
      ensures Valid()
      ensures Contents == old(Contents) - {key}
      ensures count == old(count) - (if key in old(Contents) then 1 else 0)
      ensures capacity == old(capacity)
    {
      var s := Hash(key);
      var i := IndexOf(buckets[s], key);
      if i >= 0 {
        RemoveExisting(buckets, hashFunction, Contents, key);
        buckets := buckets[s := RemoveAt(buckets[s], i)];
        count := count - 1;
        Contents := Contents - {key};
      } else {
        assert Contents - {key} == Contents;
      }
    }

    /** hash.hpp:42: the dictionary interface's removal, which is `del`. */
    method Remove(key: K)
      requires Valid()
      modifies this
      ensures Valid()
      ensures Contents == old(Contents) - {key}
      ensures count == old(count) - (if key in old(Contents) then 1 else 0)
      ensures capacity == old(capacity)
    {
      Del(key);
    }

    /** hash.hpp:45: insert only a new key. */
    method TryAdd(key: K, value: V) returns (added: bool)
      requires Valid()
      modifies this
      ensures Valid()
      ensures added <==> key !in old(Contents)
      ensures Contents == if added then old(Contents)[key := value] else old(Contents)
      ensures count == old(count) + (if added then 1 else 0)
      ensures capacity == if added then GrownCapacity(count, old(capacity)) else old(capacity)
    {
      added := !ContainsKey(key);
      if added {
        Set(key, value);
      }
    }

    /** hash.hpp:46: remove a present key. */
    method TryRemove(key: K) returns (removed: bool)
      requires Valid()
      modifies this
      ensures Valid()
      ensures removed <==> key in old(Contents)
      ensures Contents == old(Contents) - {key}
      ensures count == old(count) - (if removed then 1 else 0)
      ensures capacity == old(capacity)
    {
      removed := ContainsKey(key);
      if removed {
        Del(key);
      }
    }

    /** hash.hpp:47: overwrite the value of a present key; never grows. */
    method TryUpdate(key: K, value: V) returns (updated: bool)
      requires Valid()
      modifies this
      ensures Valid()
      ensures updated <==> key in old(Contents)
      ensures Contents == if updated then old(Contents)[key := value] else old(Contents)
      ensures count == old(count) && capacity == old(capacity)
    {
      var s := Hash(key);
      var i := IndexOf(buckets[s], key);
      updated := i >= 0;
      if updated {
        ReplaceExisting(buckets, hashFunction, Contents, key, value);
        buckets := buckets[s := buckets[s][i := Entry(key, value)]];
        Contents := Contents[key := value];
      }
    }

    /** hash.hpp:53: rebuild the bucket array with `newCapacity` buckets and
        move every entry, bucket by bucket and chain by chain, to the bucket
        its key hashes to now. */
    method Rehash(newCapacity: int)
      requires Valid() && newCapacity > 0
      modifies this
      ensures Valid()
      ensures Contents == old(Contents) && count == old(count) && capacity == newCapacity
    {
      var rebuilt := EmptyBuckets<K, V>(newCapacity);
      ghost var moved: map<K, V> := map[];
      EmptyInv<K, V>(newCapacity, hashFunction);
      var i := 0;
      while i < |buckets|
        invariant unchanged(this) && 0 <= i <= |buckets|
        invariant |rebuilt| == newCapacity && Inv(rebuilt, hashFunction, moved)
        invariant MovedBefore(buckets, hashFunction, Contents, moved, i, 0)
      {
        var chain := buckets[i];
        var j := 0;
        while j < |chain|
          invariant unchanged(this) && 0 <= j <= |chain|
          invariant |rebuilt| == newCapacity && Inv(rebuilt, hashFunction, moved)
          invariant MovedBefore(buckets, hashFunction, Contents, moved, i, j)
        {
          var e := chain[j];
          MoveOne(buckets, hashFunction, Contents, rebuilt, moved, i, j);
          var s := SlotOf(hashFunction, e.key, newCapacity);
          rebuilt := rebuilt[s := rebuilt[s] + [e]];
          moved := moved[e.key := e.value];
          j := j + 1;
        }
        NextBucket(buckets, hashFunction, Contents, moved, i);
        i := i + 1;
      }
      AllMoved(buckets, hashFunction, Contents, moved);
      SizeMatches(rebuilt, hashFunction, moved);
      SizeMatches(buckets, hashFunction, Contents);
      buckets := rebuilt;
      capacity := newCapacity;
    }

    /** hash.hpp:52: an explicit capacity request, carried out by `rehash`. */
    method SetCapacity(newCapacity: int)
      requires Valid() && newCapacity > 0
      modifies this
      ensures Valid()
      ensures Contents == old(Contents) && count == old(count) && capacity == newCapacity
    {
      Rehash(newCapacity);
    }

    /** hash.hpp:60: a new table with the same keys and transformed values;
        the receiver is untouched. */
    method Map<U>(f: V -> U) returns (t: HashTable<K, U>)
      requires Valid()
      ensures fresh(t) && t.Valid()
      ensures t.Contents == MapValues(Contents, f)
      ensures t.count == count && t.capacity == capacity && t.hashFunction == hashFunction
    {
      MapInv(buckets, hashFunction, Contents, f);
      t := new HashTable.FromBuckets(hashFunction, MapBuckets(buckets, f), MapValues(Contents, f));
      SizeMatches(buckets, hashFunction, Contents);
      SizeMatches(t.buckets, hashFunction, t.Contents);
    }

    /** hash.hpp:64: a new table holding the entries whose value satisfies
        `keep`; the receiver is untouched. */
    method Where(keep: V -> bool) returns (t: HashTable<K, V>)
      requires Valid()
      ensures fresh(t) && t.Valid()
      ensures t.Contents == FilterValues(Contents, keep)
      ensures t.capacity == capacity && t.hashFunction == hashFunction
    {
      FilterInv(buckets, hashFunction, Contents, keep);
      t := new HashTable.FromBuckets(hashFunction, FilterBuckets(buckets, keep), FilterValues(Contents, keep));
    }

    /** hash.hpp:66: `where` in place. */
    method Filter(keep: V -> bool)
      requires Valid()
      modifies this
      ensures Valid()
      ensures Contents == FilterValues(old(Contents), keep)
      ensures capacity == old(capacity)
    {
      FilterInv(buckets, hashFunction, Contents, keep);
      buckets := FilterBuckets(buckets, keep);
      count := TotalSize(buckets);
      Contents := FilterValues(Contents, keep);
    }

    /** hash.hpp:67: `map` in place, for a value-to-value function. */
    method MapMutable(f: V -> V)
      requires Valid()
      modifies this
      ensures Valid()
      ensures Contents == MapValues(old(Contents), f)
      ensures count == old(count) && capacity == old(capacity)
    {
      MapInv(buckets, hashFunction, Contents, f);
      SizeMatches(buckets, hashFunction, Contents);
      buckets := MapBuckets(buckets, f);
      Contents := MapValues(Contents, f);
      SizeMatches(buckets, hashFunction, Contents);
    }

    /** hash.hpp:72: an iterator over the keys, reading this table's buckets. */
    method GetKeysIterator() returns (it: KeyIterator<K, V>)
      requires Valid()
      ensures fresh(it) && it.Valid() && it.buckets == buckets
      ensures it.Keys() == SelectKeys() && it.Position() == 0
    {
      it := new KeyIterator(buckets);
    }
  }
}

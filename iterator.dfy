/** The key iterator `hash_table_iterator` (hash_table/hash_table_iterator.hpp:9-28).

    It reads the table's bucket array through a const pointer and keeps a
    cursor (`current_bucket`, `inner_index`). The model keeps the bucket array
    it was created over as a `const` field: the iterator never changes it, and
    what happens when the table changes during iteration is left unspecified. */
module HashTableIterators {
  import opened Wrappers
  import opened Entries
  import opened Buckets

  datatype IteratorError = NoCurrentElement

  /** The first bucket at or after `lo` that holds an entry, or `|b|` when
      there is none. */
  function NextNonEmpty<K, V>(b: seq<Chain<K, V>>, lo: int): (r: int)
    requires 0 <= lo <= |b|
    ensures lo <= r <= |b|
    ensures forall x :: lo <= x < r ==> b[x] == []
    ensures r < |b| ==> b[r] != []
    decreases |b| - lo
  {
    if lo == |b| || b[lo] != [] then lo else NextNonEmpty(b, lo + 1)
  }

  /** There is a non-empty bucket at or after `lo` exactly when
      `NextNonEmpty` stops before the end. */
  lemma NextNonEmptyExists<K, V>(b: seq<Chain<K, V>>, lo: int)
    requires 0 <= lo <= |b|
    ensures NextNonEmpty(b, lo) < |b| <==> exists x :: lo <= x < |b| && b[x] != []
  {
  }

  class KeyIterator<K, V> {
    const buckets: seq<Chain<K, V>>
    var currentBucket: int
    var innerIndex: int

    /** The keys the iterator walks: bucket by bucket, each chain in order. */
    function Keys(): seq<K>
    {
      KeysOf(Flatten(buckets))
    }

    /** How many keys lie before the cursor. */
    function Position(): int
      reads this
      requires 0 <= currentBucket <= |buckets|
    {
      TotalSize(buckets[..currentBucket]) + innerIndex
    }

    /** The cursor addresses an existing entry, or, over a table with no
        entries, has run off the end of the bucket array. */
    ghost predicate Valid()
      reads this
    {
      && 0 <= currentBucket <= |buckets|
      && 0 <= innerIndex
      && (currentBucket < |buckets| ==> innerIndex < |buckets[currentBucket]|)
      && (currentBucket == |buckets| ==> innerIndex == 0 && TotalSize(buckets) == 0)
    }

    /** The cursor addresses key number `Position()` of `Keys()`. */
    lemma CursorAddressesKey()
      requires Valid() && currentBucket < |buckets|
      ensures Position() < |Keys()|
      ensures Keys()[Position()] == buckets[currentBucket][innerIndex].key
    {
      FlattenAt(buckets, currentBucket, innerIndex);
    }

    /** hash_table_iterator.hpp:18: a fresh iterator is already on the first key. */
    constructor (buckets: seq<Chain<K, V>>)
      ensures Valid() && this.buckets == buckets && Position() == 0
    {
      this.buckets := buckets;
      currentBucket := 0;
      innerIndex := 0;
      new;
      var _ := FindNextNonEmpty();
    }

    /** hash_table_iterator.hpp:27: move the cursor forward over empty
        buckets, keeping the position. */
    method FindNextNonEmpty() returns (found: bool)
      requires 0 <= currentBucket <= |buckets| && innerIndex == 0
      modifies this
      ensures currentBucket == NextNonEmpty(buckets, old(currentBucket)) && innerIndex == 0
      ensures found <==> currentBucket < |buckets|
      ensures Position() == old(Position())
      ensures !found ==> old(Position()) == TotalSize(buckets)
    {
      ghost var start := currentBucket;
      while currentBucket < |buckets| && buckets[currentBucket] == []
        invariant start <= currentBucket <= |buckets| && innerIndex == 0
        invariant NextNonEmpty(buckets, start) == NextNonEmpty(buckets, currentBucket)
        decreases |buckets| - currentBucket
      {
        currentBucket := currentBucket + 1;
      }
      found := currentBucket < |buckets|;
      PrefixSkipsEmpty(buckets, start, currentBucket);
      if !found {
        assert buckets[..currentBucket] == buckets;
      }
    }

    /** hash_table_iterator.hpp:20: a key follows the current one. */
    function HasNext(): (r: bool)
      reads this
      requires Valid()
      ensures r <==> Position() + 1 < |Keys()|
    {
      if currentBucket == |buckets| then
        false
      else if innerIndex + 1 < |buckets[currentBucket]| then
        PrefixStep(buckets, currentBucket);
        SuffixNonEmpty(buckets, currentBucket + 1);
        true
      else
        PrefixStep(buckets, currentBucket);
        SuffixNonEmpty(buckets, currentBucket + 1);
        NextNonEmptyExists(buckets, currentBucket + 1);
        NextNonEmpty(buckets, currentBucket + 1) < |buckets|
    }

    /** hash_table_iterator.hpp:21: step to the following key; with none
        left, answer false and leave the cursor where it is. */
    method Next() returns (advanced: bool)
      requires Valid()
      modifies this
      ensures Valid()
      ensures advanced <==> old(HasNext())
      ensures advanced ==> Position() == old(Position()) + 1
      ensures !advanced ==> currentBucket == old(currentBucket) && innerIndex == old(innerIndex)
    {
      if !HasNext() {
        return false;
      }
      PrefixStep(buckets, currentBucket);
      innerIndex := innerIndex + 1;
      if innerIndex == |buckets[currentBucket]| {
        currentBucket := currentBucket + 1;
        innerIndex := 0;
        var _ := FindNextNonEmpty();
      }
      advanced := true;
    }

    /** hash_table_iterator.hpp:24: the key under the cursor; an iterator over
        an empty table has none. */
    function GetCurrent(): (r: Result<K, IteratorError>)
      reads this
      requires Valid()
      ensures r.Ok? <==> |Keys()| > 0
      ensures r.Ok? ==> Position() < |Keys()| && r.value == Keys()[Position()]
    {
      if currentBucket < |buckets| then
        CursorAddressesKey();
        Ok(buckets[currentBucket][innerIndex].key)
      else
        Err(NoCurrentElement)
    }

    /** hash_table_iterator.hpp:22: the non-failing form of `get_current`. */
    method TryGetCurrent() returns (element: Option<K>)
      requires Valid()
      ensures element.Some? <==> |Keys()| > 0
      ensures element.Some? ==> Position() < |Keys()| && element.value == Keys()[Position()]
    {
      if currentBucket < |buckets| {
        CursorAddressesKey();
        element := Some(buckets[currentBucket][innerIndex].key);
      } else {
        element := None;
      }
    }
  }

  /** The client loop "read the current key; repeat while `next()` succeeds",
      started on a fresh iterator over a non-empty table: it reads every key
      once, in iteration order, and `next()` succeeds one time fewer. */
  method CollectKeys<K, V>(it: KeyIterator<K, V>) returns (keys: seq<K>, advances: int)
    requires it.Valid() && it.Position() == 0 && |it.Keys()| > 0
    modifies it
    ensures keys == it.Keys()
    ensures advances == |it.Keys()| - 1
  {
    keys := [];
    advances := 0;
    var more := true;
    while more
      invariant it.Valid()
      invariant 0 <= it.Position() < |it.Keys()|
      invariant more ==> keys == it.Keys()[..it.Position()] && advances == it.Position()
      invariant !more ==> keys == it.Keys() && advances == |it.Keys()| - 1
      decreases |it.Keys()| - it.Position() + (if more then 1 else 0)
    {
      var current := it.GetCurrent();
      keys := keys + [current.value];
      assert keys == it.Keys()[..it.Position() + 1];
      ghost var before := it.Position();
      more := it.Next();
      if more {
        advances := advances + 1;
      } else {
        assert before + 1 == |it.Keys()|;
      }
    }
  }
}

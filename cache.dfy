/** The LRU cache `cache<t_key, t_value>` (cache.hpp:6-40).

    The cache keeps a hash table of resident entries, a record stream that
    serves as the backing store, the recency order `access_order` (least
    recently used first, most recently used last), the bound `capacity` on
    resident entries and the hit and miss counters. The pure functions of
    this module describe one access to the recency order and to the resident
    set; the class's methods are proved to carry them out. */
module Caches {
  import opened Wrappers
  import opened Entries
  import opened Buckets
  import opened HashTables
  import opened FileStreams

  datatype CacheError = KeyNotFound

  ghost predicate Distinct<K>(s: seq<K>)
  {
    forall i, j :: 0 <= i < j < |s| ==> s[i] != s[j]
  }

  /** `s` without the first occurrence of `k`. */
  function RemoveFirst<K(==)>(s: seq<K>, k: K): (r: seq<K>)
    ensures |r| == if k in s then |s| - 1 else |s|
    ensures forall x :: x in r ==> x in s
    ensures forall x :: x in s && x != k ==> x in r
    ensures Distinct(s) ==> Distinct(r) && k !in r
  {
    if s == [] then []
    else if s[0] == k then s[1..]
    else
      var rest := RemoveFirst(s[1..], k);
      assert Distinct(s) ==> s[0] !in s[1..];
      [s[0]] + rest
  }

  /** Cutting the first occurrence out of the sequence by position is
      `RemoveFirst`: the step `update_access_order` takes. */
  lemma {:induction false} RemoveFirstAt<K>(s: seq<K>, k: K, i: int)
    requires 0 <= i < |s| && s[i] == k
    requires forall j :: 0 <= j < i ==> s[j] != k
    ensures RemoveFirst(s, k) == s[..i] + s[i + 1..]
  {
    if i > 0 {
      RemoveFirstAt(s[1..], k, i - 1);
      assert s[1..][..i - 1] + s[1..][i..] == (s[..i] + s[i + 1..])[1..];
    }
  }

  /** Removing a key that does not occur changes nothing. */
  lemma {:induction false} RemoveFirstAbsent<K>(s: seq<K>, k: K)
    requires k !in s
    ensures RemoveFirst(s, k) == s
  {
    if s != [] {
      RemoveFirstAbsent(s[1..], k);
    }
  }

  /** Move `k` to the most recently used end. */
  function Touch<K(==)>(order: seq<K>, k: K): (r: seq<K>)
    ensures |r| > 0 && r[|r| - 1] == k
    ensures k in r && (forall x :: x in order ==> x in r)
    ensures forall x :: x in r ==> x in order || x == k
    ensures Distinct(order) ==> Distinct(r)
    ensures |r| == if k in order then |order| else |order| + 1
  {
    var rest := RemoveFirst(order, k);
    rest + [k]
  }

  /** The key an access to `k` evicts: the least recently used one, when `k`
      is not resident and admitting it would exceed `capacity`. */
  function Evictee<K(==)>(order: seq<K>, k: K, capacity: int): (r: Option<K>)
    ensures r.Some? ==> |order| > 0 && r.value == order[0] && k !in order
    ensures r.None? ==> k in order || |order| < capacity || |order| == 0
  {
    if k !in order && |order| >= capacity && |order| > 0 then Some(order[0]) else None
  }

  /** The recency order after `k` is used (a hit, a miss served from the
      store, or a `put`). */
  function Access<K(==)>(order: seq<K>, k: K, capacity: int): (r: seq<K>)
    ensures |r| > 0 && r[|r| - 1] == k
    ensures forall x {:trigger x in r} :: x in r ==> x in order || x == k
    ensures forall x {:trigger x in r} :: x in order && Evictee(order, k, capacity) != Some(x) ==> x in r
    ensures 1 <= capacity && |order| <= capacity ==> |r| <= capacity
  {
    if k in order then Touch(order, k)
    else if Evictee(order, k, capacity).Some? then order[1..] + [k]
    else order + [k]
  }

  /** The resident entries after `k` is admitted with value `v`. */
  function Admitted<K, V>(resident: map<K, V>, order: seq<K>, k: K, v: V, capacity: int): (r: map<K, V>)
    ensures k in r && r[k] == v
    ensures forall x {:trigger x in r} :: x in r ==> x in resident || x == k
    ensures forall x {:trigger x in r} :: x in resident && x != k && Evictee(order, k, capacity) != Some(x) ==>
              x in r && r[x] == resident[x]
    ensures Evictee(order, k, capacity).Some? ==> Evictee(order, k, capacity).value !in r
  {
    match Evictee(order, k, capacity)
    case Some(e) => resident[k := v] - {e}
    case None => resident[k := v]
  }

  /** The cache invariant: the recency order lists each resident key exactly
      once, and no more than `capacity` keys are resident. */
  ghost predicate LruInv<K, V>(resident: map<K, V>, order: seq<K>, capacity: int)
  {
    && Distinct(order)
    && (forall x :: x in order ==> x in resident)
    && (forall x :: x in resident ==> x in order)
    && |order| == |resident|
    && |order| <= capacity
  }

  /** Every access keeps the cache invariant; afterwards `k` is resident with
      value `v` and is the most recently used key, and the evicted key, if
      any, was the least recently used one and is gone. */
  lemma AccessKeepsInv<K, V>(resident: map<K, V>, order: seq<K>, k: K, v: V, capacity: int)
    requires capacity >= 1 && LruInv(resident, order, capacity)
    ensures var order' := Access(order, k, capacity);
            var resident' := Admitted(resident, order, k, v, capacity);
            && LruInv(resident', order', capacity)
            && k in resident' && resident'[k] == v
            && order'[|order'| - 1] == k
            && (forall x :: x in resident && x != k && Evictee(order, k, capacity) != Some(x) ==>
                  x in resident' && resident'[x] == resident[x])
            && (Evictee(order, k, capacity).Some? ==>
                  Evictee(order, k, capacity).value == order[0] && order[0] !in resident')
  {
    var order' := Access(order, k, capacity);
    var resident' := Admitted(resident, order, k, v, capacity);
    if k in order {
      assert resident' == resident[k := v];
      assert |resident'| == |resident|;
    } else if Evictee(order, k, capacity).Some? {
      var e := order[0];
      assert e != k;
      assert order'[..|order| - 1] == order[1..];
      forall i, j | 0 <= i < j < |order'| ensures order'[i] != order'[j] {
        if j == |order'| - 1 {
          assert order'[i] == order[i + 1];
        } else {
          assert order'[i] == order[i + 1] && order'[j] == order[j + 1];
        }
      }
      forall x ensures x in order' <==> x in resident' {
        if x in order[1..] {
          var p :| 0 <= p < |order[1..]| && order[1..][p] == x;
          assert order[p + 1] == x && order[0] != x;
        }
        if x in order && x != e {
          var p :| 0 <= p < |order| && order[p] == x;
          assert p != 0;
          assert order[1..][p - 1] == x;
        }
      }
      assert |resident[k := v]| == |resident| + 1;
      assert e in resident[k := v];
      assert |resident'| == |resident|;
    } else {
      assert |resident'| == |resident| + 1;
      assert order' == order + [k];
    }
  }

  /** With capacity 2, the accesses A, B, A, C over an empty cache leave A
      and C resident, C most recent, and evict B. */
  lemma EvictionExample<K, V>(a: K, b: K, c: K, va: V, vb: V, vc: V)
    requires a != b && b != c && a != c
    ensures var o1 := Access([], a, 2);
            var o2 := Access(o1, b, 2);
            var o3 := Access(o2, a, 2);
            var o4 := Access(o3, c, 2);
            var r1 := Admitted(map[], [], a, va, 2);
            var r2 := Admitted(r1, o1, b, vb, 2);
            var r3 := Admitted(r2, o2, a, va, 2);
            var r4 := Admitted(r3, o3, c, vc, 2);
            && o4 == [a, c]
            && r4.Keys == {a, c}
            && b !in r4
  {
    var o1 := Access([], a, 2);
    assert o1 == [a];
    var o2 := Access(o1, b, 2);
    assert o2 == [a, b];
    var o3 := Access(o2, a, 2);
    assert RemoveFirst(o2, a) == [b];
    assert o3 == [b, a];
    var o4 := Access(o3, c, 2);
    assert Evictee(o3, c, 2) == Some(b);
    assert o4 == [a, c];
  }


  /** Where `x` was last used in the access history `h` (the keys of the
      accesses so far, oldest first); -1 when it was never used. */
  ghost function LastUse<K>(h: seq<K>, x: K): (r: int)
    ensures -1 <= r < |h|
    ensures r >= 0 ==> h[r] == x
    ensures forall j :: r < j < |h| ==> h[j] != x
  {
    if h == [] then -1
    else if h[|h| - 1] == x then |h| - 1
    else LastUse(h[..|h| - 1], x)
  }

  /** `order` lists its keys by their last use in `h`, least recently used
      first: the ordering `access_order` is meant to keep. */
  ghost predicate ByRecency<K>(order: seq<K>, h: seq<K>)
  {
    forall i, j :: 0 <= i < j < |order| ==> LastUse(h, order[i]) < LastUse(h, order[j])
  }

  /** Using `k` makes it the most recently used key and leaves the last use
      of every other key where it was. */
  lemma LastUseAppend<K>(h: seq<K>, k: K, x: K)
    ensures LastUse(h + [k], x) == if x == k then |h| else LastUse(h, x)
  {
    assert (h + [k])[..|h|] == h;
  }

  /** An order sorted by recency has no repeated key. */
  lemma RecencyDistinct<K>(order: seq<K>, h: seq<K>)
    requires ByRecency(order, h)
    ensures Distinct(order)
  {
    forall i, j | 0 <= i < j < |order| ensures order[i] != order[j] {
      assert LastUse(h, order[i]) < LastUse(h, order[j]);
    }
  }

  /** Dropping one key keeps the others sorted by recency. */
  lemma DropKeepsRecency<K>(s: seq<K>, h: seq<K>, i: int)
    requires ByRecency(s, h) && 0 <= i < |s|
    ensures ByRecency(s[..i] + s[i + 1..], h)
  {
    var t := s[..i] + s[i + 1..];
    forall a, b | 0 <= a < b < |t| ensures LastUse(h, t[a]) < LastUse(h, t[b]) {
      var a', b' := if a < i then a else a + 1, if b < i then b else b + 1;
      assert t[a] == s[a'] && t[b] == s[b'];
    }
  }

  /** Appending the key just used, which the order did not hold, keeps the
      order sorted by recency in the extended history. */
  lemma AppendMostRecent<K>(t: seq<K>, h: seq<K>, k: K)
    requires ByRecency(t, h) && k !in t
    ensures ByRecency(t + [k], h + [k])
  {
    var t' := t + [k];
    forall a, b | 0 <= a < b < |t'| ensures LastUse(h + [k], t'[a]) < LastUse(h + [k], t'[b]) {
      LastUseAppend(h, k, t'[a]);
      LastUseAppend(h, k, t'[b]);
      assert t'[a] == t[a];
      if b < |t| {
        assert t'[b] == t[b];
      }
    }
  }

  /** A hit keeps the recency order sorted by last use: moving `k` to the
      end leaves the other keys in their relative order. */
  lemma TouchFollowsHistory<K>(order: seq<K>, h: seq<K>, k: K)
    requires ByRecency(order, h)
    ensures ByRecency(Touch(order, k), h + [k])
  {
    RecencyDistinct(order, h);
    if k in order {
      var i :| 0 <= i < |order| && order[i] == k;
      RemoveFirstAt(order, k, i);
      DropKeepsRecency(order, h, i);
    } else {
      RemoveFirstAbsent(order, k);
    }
    AppendMostRecent(RemoveFirst(order, k), h, k);
  }

  /** Every access keeps the recency order sorted by last use: the keys that
      stay keep their relative order and `k` becomes the most recent. */
  lemma AccessFollowsHistory<K>(order: seq<K>, h: seq<K>, k: K, capacity: int)
    requires ByRecency(order, h)
    ensures ByRecency(Access(order, k, capacity), h + [k])
  {
    if k in order {
      TouchFollowsHistory(order, h, k);
    } else if Evictee(order, k, capacity).Some? {
      DropKeepsRecency(order, h, 0);
      assert order[..0] + order[1..] == order[1..];
      AppendMostRecent(order[1..], h, k);
    } else {
      AppendMostRecent(order, h, k);
    }
  }

  /** The evicted key is the least recently used one: its last use comes
      before that of every other key in the order. */
  lemma EvicteeLeastRecent<K>(order: seq<K>, h: seq<K>, k: K, capacity: int)
    requires ByRecency(order, h) && Evictee(order, k, capacity).Some?
    ensures forall x :: x in order && x != Evictee(order, k, capacity).value ==>
              LastUse(h, Evictee(order, k, capacity).value) < LastUse(h, x)
  {
    forall x | x in order && x != order[0] ensures LastUse(h, order[0]) < LastUse(h, x) {
      var p :| 0 <= p < |order| && order[p] == x;
      assert p > 0;
    }
  }

  /** The record a store scan yields: the first record with key `k`
      (`read_from_stream` scans from the start of the file), which is the
      chain lookup `Find` applied to the whole store. */
  function StoreLookup<K(==), V>(records: seq<Entry<K, V>>, k: K): (r: Option<V>)
    ensures r.Some? <==> exists i :: 0 <= i < |records| && records[i].key == k
    ensures r.Some? ==> exists i :: 0 <= i < |records| && records[i] == Entry(k, r.value)
                                    && forall j :: 0 <= j < i ==> records[j].key != k
  {
    var i := IndexOf(records, k);
    assert i >= 0 ==> records[i] == Entry(k, records[i].value);
    Find(records, k)
  }

  /** First-match scanning over an append-only store: once a key has a
      record, later `put`s of that key do not change what a scan returns. */
  lemma {:induction false} ScanIgnoresLaterPuts<K, V>(records: seq<Entry<K, V>>, later: seq<Entry<K, V>>, k: K)
    requires StoreLookup(records, k).Some?
    ensures StoreLookup(records + later, k) == StoreLookup(records, k)
  {
    var i := IndexOf(records, k);
    var both := records + later;
    assert both[..|records|] == records;
    var i' := IndexOf(both, k);
    assert both[i] == records[i];
    assert i' == i;
  }

  /** Hit ratio `hits / (hits + misses)`, 0 when there were no requests. */
  function HitRatio(hits: int, misses: int): (r: real)
    requires hits >= 0 && misses >= 0
    ensures hits + misses == 0 ==> r == 0.0
    ensures hits + misses > 0 ==> r * (hits + misses) as real == hits as real
    ensures 0.0 <= r <= 1.0
  {
    if hits + misses == 0 then 0.0 else hits as real / (hits + misses) as real
  }

  class Cache<K(==), V> {
    const table: HashTable<K, V>
    const stream: FileStream<Entry<K, V>>
    var accessOrder: seq<K>
    const capacity: int
    /** The keys of the accesses that made a key resident or refreshed it
        (hits, misses served from the store, `put`s), oldest first. */
    ghost var history: seq<K>
    var hitCount: int
    var missCount: int

    ghost predicate Valid()
      reads this, table, stream
    {
      && table.Valid() && stream.Valid() && stream.isOpen
      && capacity >= 1 && hitCount >= 0 && missCount >= 0
      && LruInv(table.Contents, accessOrder, capacity)
    }

    /** `access_order` lists the resident keys by their last use in
        `history`, least recently used first. */
    ghost predicate InRecencyOrder()
      reads this
    {
      ByRecency(accessOrder, history)
    }

    /** cache.hpp:20: an empty cache over a store that already holds
        `existing`, with a table of the default capacity. */
    constructor (capacity: int, hashFunction: K -> int, existing: seq<Entry<K, V>>, gap: Entry<K, V>, recordSize: int)
      requires capacity >= 1 && recordSize > 0
      ensures Valid() && InRecencyOrder() && fresh(table) && fresh(stream)
      ensures this.capacity == capacity && accessOrder == [] && table.Contents == map[]
      ensures hitCount == 0 && missCount == 0 && stream.records == existing && history == []
    {
      this.capacity := capacity;
      table := new HashTable(hashFunction);
      stream := new FileStream(existing, gap, recordSize);
      accessOrder := [];
      hitCount := 0;
      missCount := 0;
      history := [];
    }

    /** cache.hpp:30: the number of resident entries. */
    function GetSize(): (r: int)
      reads this, table, stream
      requires Valid()
      ensures r == |table.Contents| == |accessOrder|
      ensures 0 <= r <= capacity
    {
      table.GetCount()
    }

    /** cache.hpp:32 */
    function GetHitRatio(): (r: real)
      reads this, table, stream
      requires Valid()
      ensures hitCount + missCount == 0 ==> r == 0.0
      ensures hitCount + missCount > 0 ==> r * (hitCount + missCount) as real == hitCount as real
    {
      HitRatio(hitCount, missCount)
    }

    /** cache.hpp:26: zero both counters; entries and recency stay. */
    method ResetStatistics()
      requires Valid()
      modifies this
      ensures Valid() && hitCount == 0 && missCount == 0
      ensures accessOrder == old(accessOrder) && history == old(history)
    {
      hitCount := 0;
      missCount := 0;
    }

    /** cache.hpp:35: find `key` in the recency order, cut it out, and
        append it at the most recently used end. */
    method UpdateAccessOrder(key: K)
      modifies this
      ensures accessOrder == Touch(old(accessOrder), key)
      ensures hitCount == old(hitCount) && missCount == old(missCount)
      ensures history == old(history) + [key]
      ensures old(InRecencyOrder()) ==> InRecencyOrder()
    {
      if InRecencyOrder() {
        TouchFollowsHistory(accessOrder, history, key);
      }
      history := history + [key];
      var i := 0;
      while i < |accessOrder| && accessOrder[i] != key
        invariant 0 <= i <= |accessOrder| && accessOrder == old(accessOrder)
        invariant forall j :: 0 <= j < i ==> accessOrder[j] != key
        invariant hitCount == old(hitCount) && missCount == old(missCount)
        invariant history == old(history) + [key]
      {
        i := i + 1;
      }
      if i < |accessOrder| {
        RemoveFirstAt(accessOrder, key, i);
        accessOrder := accessOrder[..i] + accessOrder[i + 1..];
      } else {
        RemoveFirstAbsent(accessOrder, key);
      }
      accessOrder := accessOrder + [key];
    }

    /** cache.hpp:38: rewind the store and read records until one has `key`;
        the value of the first such record. */
    method ReadFromStream(key: K) returns (r: Option<V>)
      requires stream.isOpen
      modifies stream
      ensures r == StoreLookup(stream.records, key)
      ensures stream.records == old(stream.records) && stream.isOpen
    {
      var _ := stream.Reset();
      var item := stream.Read();
      while item.Ok?
        invariant stream.isOpen && stream.records == old(stream.records)
        invariant 0 <= stream.position <= |stream.records|
        invariant item.Ok? ==> stream.position >= 1 && item.value == stream.records[stream.position - 1]
        invariant item.Err? ==> stream.position == |stream.records|
        invariant forall j :: 0 <= j < stream.position - (if item.Ok? then 1 else 0) ==> stream.records[j].key != key
        decreases |stream.records| - stream.position + (if item.Ok? then 1 else 0)
      {
        if item.value.key == key {
          return Some(item.value.value);
        }
        item := stream.Read();
      }
      return None;
    }

    /** cache.hpp:36: append the record at the end of the store. */
    method WriteToStream(key: K, value: V)
      requires stream.isOpen
      modifies stream
      ensures stream.records == old(stream.records) + [Entry(key, value)]
      ensures stream.isOpen
    {
      var _ := stream.MovePosition(|stream.records|);
      var _ := stream.Write(Entry(key, value));
      assert stream.records == old(stream.records) + [Entry(key, value)];
    }

    /** Make `key` resident with `value` and most recently used, evicting the
        least recently used key when the cache would overflow. */
    method Admit(key: K, value: V)
      requires Valid()
      modifies this, table
      ensures Valid()
      ensures accessOrder == Access(old(accessOrder), key, capacity)
      ensures table.Contents == Admitted(old(table.Contents), old(accessOrder), key, value, capacity)
      ensures hitCount == old(hitCount) && missCount == old(missCount)
      ensures history == old(history) + [key]
      ensures old(InRecencyOrder()) ==> InRecencyOrder()
    {
      ghost var order0, resident0 := accessOrder, table.Contents;
      AccessKeepsInv(resident0, order0, key, value, capacity);
      if InRecencyOrder() {
        AccessFollowsHistory(order0, history, key, capacity);
      }
      var resident := table.ContainsKey(key);
      assert resident <==> key in order0;
      table.Set(key, value);
      if resident {
        UpdateAccessOrder(key);
      } else {
        assert |table.Contents| == |order0| + 1;
        if table.GetCount() > capacity {
          assert Evictee(order0, key, capacity) == Some(order0[0]);
          var lru := accessOrder[0];
          table.Del(lru);
          accessOrder := accessOrder[1..];
        } else {
          assert Evictee(order0, key, capacity) == None;
        }
        accessOrder := accessOrder + [key];
        history := history + [key];
      }
      assert accessOrder == Access(order0, key, capacity);
      assert table.Contents == Admitted(resident0, order0, key, value, capacity);
    }

    /** cache.hpp:23: a hit answers from the table and refreshes the key; a
        miss scans the store and, when the key is there, admits it. A key
        found in neither is `KeyNotFound`. Exactly one counter moves. */
    method Get(key: K) returns (r: Result<V, CacheError>)
      requires Valid()
      modifies this, table, stream
      ensures Valid() && stream.records == old(stream.records)
      ensures old(InRecencyOrder()) ==> InRecencyOrder()
      ensures key in old(table.Contents) ==>
                && r == Ok(old(table.Contents)[key])
                && hitCount == old(hitCount) + 1 && missCount == old(missCount)
                && table.Contents == old(table.Contents)
                && accessOrder == Touch(old(accessOrder), key)
                && history == old(history) + [key]
      ensures key !in old(table.Contents) ==>
                && hitCount == old(hitCount) && missCount == old(missCount) + 1
                && match StoreLookup(old(stream.records), key)
                   case None =>
                     r == Err(CacheError.KeyNotFound) && table.Contents == old(table.Contents)
                     && accessOrder == old(accessOrder) && history == old(history)
                   case Some(v) =>
                     r == Ok(v) && accessOrder == Access(old(accessOrder), key, capacity)
                     && history == old(history) + [key]
                     && table.Contents == Admitted(old(table.Contents), old(accessOrder), key, v, capacity)
    {
      if table.ContainsKey(key) {
        hitCount := hitCount + 1;
        var v := table.Get(key).value;
        AccessKeepsInv(table.Contents, accessOrder, key, v, capacity);
        assert table.Contents[key := v] == table.Contents;
        UpdateAccessOrder(key);
        return Ok(v);
      }
      missCount := missCount + 1;
      var found := ReadFromStream(key);
      match found {
        case None =>
          r := Err(CacheError.KeyNotFound);
        case Some(v) =>
          Admit(key, v);
          r := Ok(v);
      }
    }

    /** cache.hpp:25: append the record to the store, then admit the key as
        `get` does on a miss. */
    method Put(key: K, value: V)
      requires Valid()
      modifies this, table, stream
      ensures Valid()
      ensures stream.records == old(stream.records) + [Entry(key, value)]
      ensures accessOrder == Access(old(accessOrder), key, capacity)
      ensures table.Contents == Admitted(old(table.Contents), old(accessOrder), key, value, capacity)
      ensures hitCount == old(hitCount) && missCount == old(missCount)
      ensures history == old(history) + [key]
      ensures old(InRecencyOrder()) ==> InRecencyOrder()
    {
      WriteToStream(key, value);
      Admit(key, value);
    }
  }

  /** The benchmark's request loop (benchmark_cache.cpp:31-40): a `get` per
      key, failures caught and ignored. Every request is counted once. */
  method RunWorkload<K, V>(c: Cache<K, V>, keys: seq<K>)
    requires c.Valid()
    modifies c, c.table, c.stream
    ensures c.Valid()
    ensures c.hitCount + c.missCount == old(c.hitCount + c.missCount) + |keys|
    ensures old(c.InRecencyOrder()) ==> c.InRecencyOrder()
  {
    var i := 0;
    while i < |keys|
      invariant 0 <= i <= |keys| && c.Valid()
      invariant c.hitCount + c.missCount == old(c.hitCount + c.missCount) + i
      invariant old(c.InRecencyOrder()) ==> c.InRecencyOrder()
    {
      var _ := c.Get(keys[i]);
      i := i + 1;
    }
  }
}

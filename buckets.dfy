/** The bucket array of the chained hash table (hash.hpp:20-24) as a value:
    bucket index arithmetic, chain lookup, sizes, the bucket-then-chain order
    in which entries are listed, and the table invariant together with the
    lemmas that every mutating operation of hash.hpp preserves it. */
module Buckets {
  import opened Wrappers
  import opened Entries
  import opened Arith

  /** One bucket: the entries whose keys hash to it, in insertion order. */
  type Chain<K, V> = seq<Entry<K, V>>

  // ---------------------------------------------------------------------
  // Bucket index arithmetic (hash.hpp:55)
  // ---------------------------------------------------------------------

  /** C++ `a / n` for n > 0: the quotient truncated toward zero. */
  function TruncDiv(a: int, n: int): int
    requires n > 0
  {
    if a >= 0 then a / n else -((-a) / n)
  }

  /** C++ `a % n` for n > 0: the remainder that goes with the truncated
      quotient, so it takes the sign of the dividend. */
  function TruncRem(a: int, n: int): (r: int)
    requires n > 0
    ensures -n < r < n
    ensures (a >= 0 ==> r >= 0) && (a <= 0 ==> r <= 0)
    ensures TruncDiv(a, n) * n + r == a
  {
    if a >= 0 then a % n else -((-a) % n)
  }

  /** The bucket a hash value lands in: the C++ remainder, moved into
      [0, capacity) when the user hash is negative. */
  function BucketIndex(h: int, capacity: int): (r: int)
    requires capacity > 0
    ensures 0 <= r < capacity
    ensures r == h % capacity
  {
    var t := TruncRem(h, capacity);
    if t < 0 then
      DivModUnique(h, TruncDiv(h, capacity) - 1, t + capacity, capacity);
      t + capacity
    else
      DivModUnique(h, TruncDiv(h, capacity), t, capacity);
      t
  }

  /** The bucket of key `k` in a table of `n` buckets with hash function `hash`. */
  function SlotOf<K>(hash: K -> int, k: K, n: int): int
    requires n > 0
  {
    BucketIndex(hash(k), n)
  }

  // ---------------------------------------------------------------------
  // One chain (find_in_bucket, hash.hpp:75)
  // ---------------------------------------------------------------------

  /** Position of the first entry with key `k` in chain `c`, or -1 when the
      chain holds no such entry. */
  function IndexOf<K(==), V>(c: Chain<K, V>, k: K): (r: int)
    ensures -1 <= r < |c|
    ensures 0 <= r ==> c[r].key == k
    ensures forall j :: 0 <= j < |c| && (r < 0 || j < r) ==> c[j].key != k
  {
    if c == [] then -1
    else if c[0].key == k then 0
    else
      var r := IndexOf(c[1..], k);
      if r < 0 then -1 else r + 1
  }

  /** The value stored under `k` in chain `c`, if any. */
  function Find<K(==), V>(c: Chain<K, V>, k: K): (r: Option<V>)
    ensures r.Some? <==> exists j :: 0 <= j < |c| && c[j].key == k
    ensures r.Some? ==> exists j :: 0 <= j < |c| && c[j] == Entry(k, r.value)
  {
    var i := IndexOf(c, k);
    if i < 0 then None
    else
      assert c[i] == Entry(k, c[i].value);
      Some(c[i].value)
  }

  ghost predicate DistinctKeys<K, V>(c: Chain<K, V>)
  {
    forall a, b :: 0 <= a < b < |c| ==> c[a].key != c[b].key
  }

  // ---------------------------------------------------------------------
  // The whole bucket array: sizes and bucket-then-chain order
  // ---------------------------------------------------------------------

  /** Sum of the chain lengths. */
  function TotalSize<K, V>(b: seq<Chain<K, V>>): nat
  {
    if b == [] then 0 else TotalSize(b[..|b| - 1]) + |b[|b| - 1]|
  }

  /** All entries, bucket by bucket, each chain in insertion order. */
  function Flatten<K, V>(b: seq<Chain<K, V>>): (r: Chain<K, V>)
    ensures |r| == TotalSize(b)
  {
    if b == [] then [] else Flatten(b[..|b| - 1]) + b[|b| - 1]
  }

  function KeysOf<K, V>(es: Chain<K, V>): (r: seq<K>)
    ensures |r| == |es| && forall p :: 0 <= p < |es| ==> r[p] == es[p].key
  {
    seq(|es|, p requires 0 <= p < |es| => es[p].key)
  }

  function ValuesOf<K, V>(es: Chain<K, V>): (r: seq<V>)
    ensures |r| == |es| && forall p :: 0 <= p < |es| ==> r[p] == es[p].value
  {
    seq(|es|, p requires 0 <= p < |es| => es[p].value)
  }

  function Sum(s: seq<int>): int
  {
    if s == [] then 0 else Sum(s[..|s| - 1]) + s[|s| - 1]
  }

  /** Entry j of bucket i is entry TotalSize(b[..i]) + j of the flattened order. */
  lemma {:induction false} FlattenAt<K, V>(b: seq<Chain<K, V>>, i: int, j: int)
    requires 0 <= i < |b| && 0 <= j < |b[i]|
    ensures TotalSize(b[..i]) + j < TotalSize(b)
    ensures Flatten(b)[TotalSize(b[..i]) + j] == b[i][j]
  {
    var n := |b| - 1;
    if i < n {
      assert b[..n][..i] == b[..i];
      assert b[..n][i] == b[i];
      FlattenAt(b[..n], i, j);
    } else {
      assert b[..i] == b[..n];
    }
  }

  /** Every position of the flattened order comes from some bucket i, entry j. */
  lemma {:induction false} FlattenLocate<K, V>(b: seq<Chain<K, V>>, p: int) returns (i: int, j: int)
    requires 0 <= p < TotalSize(b)
    ensures 0 <= i < |b| && 0 <= j < |b[i]|
    ensures TotalSize(b[..i]) + j == p
    ensures Flatten(b)[p] == b[i][j]
  {
    var n := |b| - 1;
    if p < TotalSize(b[..n]) {
      i, j := FlattenLocate(b[..n], p);
      assert b[..n][..i] == b[..i];
      assert b[..n][i] == b[i];
    } else {
      i, j := n, p - TotalSize(b[..n]);
      assert b[..i] == b[..n];
    }
  }

  /** The prefix sizes grow by one chain at a time. */
  lemma PrefixStep<K, V>(b: seq<Chain<K, V>>, i: int)
    requires 0 <= i < |b|
    ensures TotalSize(b[..i + 1]) == TotalSize(b[..i]) + |b[i]|
  {
    assert b[..i + 1][..i] == b[..i];
  }

  /** Skipping empty buckets does not change the prefix size. */
  lemma {:induction false} PrefixSkipsEmpty<K, V>(b: seq<Chain<K, V>>, lo: int, hi: int)
    requires 0 <= lo <= hi <= |b|
    requires forall x :: lo <= x < hi ==> b[x] == []
    ensures TotalSize(b[..hi]) == TotalSize(b[..lo])
    decreases hi - lo
  {
    if lo < hi {
      PrefixSkipsEmpty(b, lo, hi - 1);
      PrefixStep(b, hi - 1);
    }
  }

  /** When every bucket but `i` is empty, the flattened order is bucket
      `i`'s chain, in the order its entries were appended. */
  lemma {:induction false} FlattenSingleBucket<K, V>(b: seq<Chain<K, V>>, i: int)
    requires 0 <= i < |b| && forall j :: 0 <= j < |b| && j != i ==> b[j] == []
    ensures Flatten(b) == b[i]
  {
    var n := |b| - 1;
    if n == i {
      TotalSizeZero(b[..n]);
    } else {
      FlattenSingleBucket(b[..n], i);
    }
  }

  /** Some entry lies beyond prefix `lo` exactly when some bucket from `lo` on is non-empty. */
  lemma {:induction false} SuffixNonEmpty<K, V>(b: seq<Chain<K, V>>, lo: int)
    requires 0 <= lo <= |b|
    ensures TotalSize(b[..lo]) <= TotalSize(b)
    ensures TotalSize(b[..lo]) < TotalSize(b) <==> exists x :: lo <= x < |b| && b[x] != []
    decreases |b| - lo
  {
    if lo == |b| {
      assert b[..lo] == b;
    } else {
      SuffixNonEmpty(b, lo + 1);
      PrefixStep(b, lo);
      if b[lo] != [] {
        assert lo <= lo < |b| && b[lo] != [];
      }
    }
  }

  /** The bucket occupancy counts add up to the number of entries. */
  lemma {:induction false} SumOfSizes<K, V>(b: seq<Chain<K, V>>, d: seq<int>)
    requires |d| == |b| && forall i :: 0 <= i < |b| ==> d[i] == |b[i]|
    ensures Sum(d) == TotalSize(b)
  {
    if b != [] {
      var n := |b| - 1;
      SumOfSizes(b[..n], d[..n]);
    }
  }

  /** Replacing one chain changes the total by the difference in its length. */
  lemma {:induction false} TotalSizeUpdate<K, V>(b: seq<Chain<K, V>>, i: int, c: Chain<K, V>)
    requires 0 <= i < |b|
    ensures TotalSize(b[i := c]) == TotalSize(b) - |b[i]| + |c|
  {
    var n := |b| - 1;
    if i < n {
      assert b[i := c][..n] == b[..n][i := c];
      TotalSizeUpdate(b[..n], i, c);
    } else {
      assert b[i := c][..n] == b[..n];
    }
  }

  lemma {:induction false} TotalSizeZero<K, V>(b: seq<Chain<K, V>>)
    requires forall i :: 0 <= i < |b| ==> b[i] == []
    ensures TotalSize(b) == 0
  {
    if b != [] {
      TotalSizeZero(b[..|b| - 1]);
    }
  }

  // ---------------------------------------------------------------------
  // The table invariant (hash.hpp:20-24) and its preservation
  // ---------------------------------------------------------------------

  /** Every entry sits in the bucket its key hashes to and agrees with `m`. */
  ghost predicate EntriesAgree<K, V>(b: seq<Chain<K, V>>, hash: K -> int, m: map<K, V>)
    requires |b| > 0
  {
    forall i, j :: 0 <= i < |b| && 0 <= j < |b[i]| ==>
      SlotOf(hash, b[i][j].key, |b|) == i && b[i][j].key in m && m[b[i][j].key] == b[i][j].value
  }

  /** No chain holds a key twice. */
  ghost predicate ChainsDistinct<K, V>(b: seq<Chain<K, V>>)
  {
    forall i :: 0 <= i < |b| ==> DistinctKeys(b[i])
  }

  /** Every key of `m` is in the chain of its bucket. */
  ghost predicate KeysPresent<K, V>(b: seq<Chain<K, V>>, hash: K -> int, m: map<K, V>)
    requires |b| > 0
  {
    forall k {:trigger SlotOf(hash, k, |b|)} :: k in m ==> IndexOf(b[SlotOf(hash, k, |b|)], k) >= 0
  }

  /** `b` is a well-formed chained table for `hash` whose contents are `m`. */
  ghost predicate Inv<K, V>(b: seq<Chain<K, V>>, hash: K -> int, m: map<K, V>)
  {
    |b| > 0 && EntriesAgree(b, hash, m) && ChainsDistinct(b) && KeysPresent(b, hash, m)
  }

  /** Extending a chain prefix by one entry adds exactly that entry's key. */
  lemma HasKeyPrefix<K, V>(c: Chain<K, V>, j: int, k: K)
    requires 0 <= j < |c|
    ensures (IndexOf(c[..j + 1], k) >= 0) <==> (IndexOf(c[..j], k) >= 0 || c[j].key == k)
  {
    var r := IndexOf(c[..j], k);
    if r >= 0 {
      assert c[..j + 1][r] == c[..j][r];
    }
    if c[j].key == k {
      assert c[..j + 1][j].key == k;
    }
    var r' := IndexOf(c[..j + 1], k);
    if r' >= 0 && r' < j {
      assert c[..j][r'] == c[..j + 1][r'];
    }
  }

  /** `n` empty buckets. */
  function EmptyBuckets<K, V>(n: nat): (r: seq<Chain<K, V>>)
    ensures |r| == n && forall i :: 0 <= i < n ==> r[i] == []
  {
    seq(n, _ => [])
  }

  /** A table of empty buckets holds nothing. */
  lemma EmptyInv<K, V>(n: int, hash: K -> int)
    requires n > 0
    ensures Inv(EmptyBuckets<K, V>(n), hash, map[])
    ensures TotalSize(EmptyBuckets<K, V>(n)) == 0
  {
    TotalSizeZero(EmptyBuckets<K, V>(n));
  }

  /** Looking a key up in its bucket yields exactly what the contents map holds. */
  lemma LookupInv<K, V>(b: seq<Chain<K, V>>, hash: K -> int, m: map<K, V>, k: K)
    requires Inv(b, hash, m)
    ensures Find(b[SlotOf(hash, k, |b|)], k) == if k in m then Some(m[k]) else None
  {
  }

  /** Appending an entry for a new key to its bucket (the insert branch of set). */
  lemma InsertNew<K, V>(b: seq<Chain<K, V>>, hash: K -> int, m: map<K, V>, k: K, v: V)
    requires Inv(b, hash, m) && k !in m
    ensures var s := SlotOf(hash, k, |b|);
      Inv(b[s := b[s] + [Entry(k, v)]], hash, m[k := v])
      && TotalSize(b[s := b[s] + [Entry(k, v)]]) == TotalSize(b) + 1
  {
    var s := SlotOf(hash, k, |b|);
    var c := b[s];
    var c' := c + [Entry(k, v)];
    var b': seq<Chain<K, V>> := b[s := c'];
    var m' := m[k := v];
    TotalSizeUpdate(b, s, c');
    assert EntriesAgree(b', hash, m') by {
      forall x, j | 0 <= x < |b'| && 0 <= j < |b'[x]|
        ensures SlotOf(hash, b'[x][j].key, |b'|) == x && b'[x][j].key in m' && m'[b'[x][j].key] == b'[x][j].value
      {
        if x != s || j < |c| {
          assert b'[x][j] == b[x][j];
        }
      }
    }
    assert ChainsDistinct(b') by {
      assert DistinctKeys(c);
      forall j | 0 <= j < |c| ensures c[j].key != k {
        assert c[j].key in m;
      }
    }
    assert KeysPresent(b', hash, m') by {
      forall k' | k' in m'
        ensures IndexOf(b'[SlotOf(hash, k', |b'|)], k') >= 0
      {
        var s' := SlotOf(hash, k', |b|);
        if k' == k {
          assert b'[s][|c|].key == k;
        } else {
          var j := IndexOf(b[s'], k');
          assert b'[s'][j].key == k';
        }
      }
    }
  }

  /** Overwriting the value of a key already present (the update branch of set). */
  lemma ReplaceExisting<K, V>(b: seq<Chain<K, V>>, hash: K -> int, m: map<K, V>, k: K, v: V)
    requires Inv(b, hash, m) && k in m
    ensures var s := SlotOf(hash, k, |b|);
      var i := IndexOf(b[s], k);
      0 <= i && Inv(b[s := b[s][i := Entry(k, v)]], hash, m[k := v])
      && TotalSize(b[s := b[s][i := Entry(k, v)]]) == TotalSize(b)
  {
    var s := SlotOf(hash, k, |b|);
    var c := b[s];
    var i := IndexOf(c, k);
    var c' := c[i := Entry(k, v)];
    var b': seq<Chain<K, V>> := b[s := c'];
    var m' := m[k := v];
    TotalSizeUpdate(b, s, c');
    assert EntriesAgree(b', hash, m') by {
      forall x, j | 0 <= x < |b'| && 0 <= j < |b'[x]|
        ensures SlotOf(hash, b'[x][j].key, |b'|) == x && b'[x][j].key in m' && m'[b'[x][j].key] == b'[x][j].value
      {
        if x != s {
          assert b'[x][j] == b[x][j];
        } else if j != i {
          assert DistinctKeys(c);
          assert b'[x][j] == c[j] && c[j].key != k;
        }
      }
    }
    assert ChainsDistinct(b') by {
      assert DistinctKeys(c);
      assert forall j :: 0 <= j < |c| ==> c'[j].key == c[j].key;
    }
    assert KeysPresent(b', hash, m') by {
      forall k' | k' in m'
        ensures IndexOf(b'[SlotOf(hash, k', |b'|)], k') >= 0
      {
        var s' := SlotOf(hash, k', |b|);
        var j := IndexOf(b[s'], k');
        assert b'[s'][j].key == k';
      }
    }
  }

  /** Chain `c` without its entry at position `i`. */
  function RemoveAt<K, V>(c: Chain<K, V>, i: int): (r: Chain<K, V>)
    requires 0 <= i < |c|
    ensures |r| == |c| - 1
    ensures forall j :: 0 <= j < |r| ==> r[j] == if j < i then c[j] else c[j + 1]
  {
    c[..i] + c[i + 1..]
  }

  /** Unlinking the entry of a present key from its chain (del). */
  lemma RemoveExisting<K, V>(b: seq<Chain<K, V>>, hash: K -> int, m: map<K, V>, k: K)
    requires Inv(b, hash, m) && k in m
    ensures var s := SlotOf(hash, k, |b|);
      var i := IndexOf(b[s], k);
      0 <= i && Inv(b[s := RemoveAt(b[s], i)], hash, m - {k})
      && TotalSize(b[s := RemoveAt(b[s], i)]) == TotalSize(b) - 1
  {
    var s := SlotOf(hash, k, |b|);
    var i := IndexOf(b[s], k);
    TotalSizeUpdate(b, s, RemoveAt(b[s], i));
    RemoveAgrees(b, hash, m, k);
    RemoveDistinct(b, s, i);
    RemovePresent(b, hash, m, k);
  }

  lemma RemoveAgrees<K, V>(b: seq<Chain<K, V>>, hash: K -> int, m: map<K, V>, k: K)
    requires Inv(b, hash, m) && k in m
    ensures var s := SlotOf(hash, k, |b|);
      EntriesAgree(b[s := RemoveAt(b[s], IndexOf(b[s], k))], hash, m - {k})
  {
    var s := SlotOf(hash, k, |b|);
    var c := b[s];
    var i := IndexOf(c, k);
    var b': seq<Chain<K, V>> := b[s := RemoveAt(c, i)];
    var m' := m - {k};
    assert DistinctKeys(c);
    forall x, j | 0 <= x < |b'| && 0 <= j < |b'[x]|
      ensures SlotOf(hash, b'[x][j].key, |b'|) == x && b'[x][j].key in m' && m'[b'[x][j].key] == b'[x][j].value
    {
      if x == s {
        var jj := if j < i then j else j + 1;
        assert b'[x][j] == c[jj] && jj != i;
      } else {
        assert b'[x][j] == b[x][j];
      }
    }
  }

  lemma RemoveDistinct<K, V>(b: seq<Chain<K, V>>, s: int, i: int)
    requires ChainsDistinct(b) && 0 <= s < |b| && 0 <= i < |b[s]|
    ensures ChainsDistinct(b[s := RemoveAt(b[s], i)])
  {
    var c := b[s];
    var c' := RemoveAt(c, i);
    assert DistinctKeys(c);
    forall j1, j2 | 0 <= j1 < j2 < |c'| ensures c'[j1].key != c'[j2].key {
      var a1 := if j1 < i then j1 else j1 + 1;
      var a2 := if j2 < i then j2 else j2 + 1;
      assert c'[j1] == c[a1] && c'[j2] == c[a2] && a1 < a2;
    }
  }

  lemma RemovePresent<K, V>(b: seq<Chain<K, V>>, hash: K -> int, m: map<K, V>, k: K)
    requires Inv(b, hash, m) && k in m
    ensures var s := SlotOf(hash, k, |b|);
      KeysPresent(b[s := RemoveAt(b[s], IndexOf(b[s], k))], hash, m - {k})
  {
    var s := SlotOf(hash, k, |b|);
    var c := b[s];
    var i := IndexOf(c, k);
    var b': seq<Chain<K, V>> := b[s := RemoveAt(c, i)];
    forall k' | k' in m - {k}
      ensures IndexOf(b'[SlotOf(hash, k', |b'|)], k') >= 0
    {
      var s' := SlotOf(hash, k', |b|);
      var j := IndexOf(b[s'], k');
      if s' == s {
        assert j != i;
        var jj := if j < i then j else j - 1;
        assert b'[s'][jj].key == k';
      } else {
        assert b'[s'][j].key == k';
      }
    }
  }

  /** A key of the contents sits in its bucket, so the table holds at least
      one entry. */
  lemma KeyOccupiesBucket<K, V>(b: seq<Chain<K, V>>, hash: K -> int, m: map<K, V>, k: K)
    requires Inv(b, hash, m) && k in m
    ensures TotalSize(b) > 0
  {
    var s := SlotOf(hash, k, |b|);
    assert IndexOf(b[s], k) >= 0;
    SuffixNonEmpty(b, 0);
    assert b[..0] == [];
  }

  /** The counter invariant of hash.hpp:21: the chain lengths add up to the
      number of distinct keys. */
  lemma {:induction false} SizeMatches<K, V>(b: seq<Chain<K, V>>, hash: K -> int, m: map<K, V>)
    requires Inv(b, hash, m)
    ensures TotalSize(b) == |m|
    decreases TotalSize(b)
  {
    if TotalSize(b) == 0 {
      if m != map[] {
        var k :| k in m;
        KeyOccupiesBucket(b, hash, m, k);
      }
    } else {
      var i, j := FlattenLocate(b, 0);
      var k := b[i][j].key;
      RemoveExisting(b, hash, m, k);
      var s := SlotOf(hash, k, |b|);
      assert |m - {k}| == |m| - 1;
      SizeMatches(b[s := RemoveAt(b[s], IndexOf(b[s], k))], hash, m - {k});
    }
  }

  /** Every entry listed bucket by bucket agrees with the contents. */
  lemma FlattenAgrees<K, V>(b: seq<Chain<K, V>>, hash: K -> int, m: map<K, V>)
    requires Inv(b, hash, m)
    ensures forall p :: 0 <= p < |Flatten(b)| ==>
      Flatten(b)[p].key in m && m[Flatten(b)[p].key] == Flatten(b)[p].value
  {
    forall p | 0 <= p < |Flatten(b)|
      ensures Flatten(b)[p].key in m && m[Flatten(b)[p].key] == Flatten(b)[p].value
    {
      var i, j := FlattenLocate(b, p);
    }
  }

  /** Every key of the contents is listed. */
  lemma FlattenCovers<K, V>(b: seq<Chain<K, V>>, hash: K -> int, m: map<K, V>)
    requires Inv(b, hash, m)
    ensures forall k :: k in m ==> k in KeysOf(Flatten(b))
  {
    forall k | k in m
      ensures k in KeysOf(Flatten(b))
    {
      var s := SlotOf(hash, k, |b|);
      var j := IndexOf(b[s], k);
      FlattenAt(b, s, j);
      assert KeysOf(Flatten(b))[TotalSize(b[..s]) + j] == k;
    }
  }

  /** No key is listed twice. */
  lemma FlattenDistinct<K, V>(b: seq<Chain<K, V>>, hash: K -> int, m: map<K, V>)
    requires Inv(b, hash, m)
    ensures forall p, q :: 0 <= p < q < |Flatten(b)| ==> Flatten(b)[p].key != Flatten(b)[q].key
  {
    forall p, q | 0 <= p < q < |Flatten(b)|
      ensures Flatten(b)[p].key != Flatten(b)[q].key
    {
      var i, j := FlattenLocate(b, p);
      var i', j' := FlattenLocate(b, q);
      if i == i' {
        assert DistinctKeys(b[i]);
        assert j < j';
      }
    }
  }

  // ---------------------------------------------------------------------
  // Value transformations and filtering (map, where, map_mutable, filter)
  // ---------------------------------------------------------------------

  function MapChain<K, V, U>(c: Chain<K, V>, f: V -> U): (r: Chain<K, U>)
    ensures |r| == |c|
    ensures forall j :: 0 <= j < |c| ==> r[j] == Entry(c[j].key, f(c[j].value))
  {
    seq(|c|, j requires 0 <= j < |c| => Entry(c[j].key, f(c[j].value)))
  }

  function MapBuckets<K, V, U>(b: seq<Chain<K, V>>, f: V -> U): (r: seq<Chain<K, U>>)
    ensures |r| == |b|
    ensures forall i :: 0 <= i < |b| ==> r[i] == MapChain(b[i], f)
  {
    seq(|b|, i requires 0 <= i < |b| => MapChain(b[i], f))
  }

  /** The entries of `c` whose value satisfies `p`, in chain order. */
  function FilterChain<K, V>(c: Chain<K, V>, p: V -> bool): (r: Chain<K, V>)
    ensures |r| <= |c|
    ensures forall j :: 0 <= j < |r| ==> r[j] in c && p(r[j].value)
    ensures forall j :: 0 <= j < |c| && p(c[j].value) ==> c[j] in r
  {
    if c == [] then []
    else if p(c[0].value) then [c[0]] + FilterChain(c[1..], p)
    else FilterChain(c[1..], p)
  }

  function FilterBuckets<K, V>(b: seq<Chain<K, V>>, p: V -> bool): (r: seq<Chain<K, V>>)
    ensures |r| == |b|
    ensures forall i :: 0 <= i < |b| ==> r[i] == FilterChain(b[i], p)
  {
    seq(|b|, i requires 0 <= i < |b| => FilterChain(b[i], p))
  }

  function MapValues<K, V, U>(m: map<K, V>, f: V -> U): (r: map<K, U>)
    ensures r.Keys == m.Keys
    ensures forall k :: k in m ==> r[k] == f(m[k])
  {
    map k | k in m :: f(m[k])
  }

  function FilterValues<K, V>(m: map<K, V>, p: V -> bool): (r: map<K, V>)
    ensures forall k :: k in r ==> k in m && p(m[k])
    ensures forall k :: k in m && p(m[k]) ==> k in r
    ensures forall k :: k in r ==> r[k] == m[k]
  {
    map k | k in m && p(m[k]) :: m[k]
  }

  /** Transforming every value keeps every entry in its bucket: the result is
      a well-formed table whose contents are the transformed contents. */
  lemma MapInv<K, V, U>(b: seq<Chain<K, V>>, hash: K -> int, m: map<K, V>, f: V -> U)
    requires Inv(b, hash, m)
    ensures Inv(MapBuckets(b, f), hash, MapValues(m, f))
  {
    var b': seq<Chain<K, U>> := MapBuckets(b, f);
    forall i | 0 <= i < |b'| ensures DistinctKeys(b'[i]) {
      assert DistinctKeys(b[i]);
    }
    forall k | k in MapValues(m, f)
      ensures IndexOf(b'[SlotOf(hash, k, |b'|)], k) >= 0
    {
      var s := SlotOf(hash, k, |b|);
      var j := IndexOf(b[s], k);
      assert b'[s][j].key == k;
    }
  }

  /** A filtered chain keeps distinct keys. */
  lemma {:induction false} FilterChainDistinct<K, V>(c: Chain<K, V>, p: V -> bool)
    requires DistinctKeys(c)
    ensures DistinctKeys(FilterChain(c, p))
  {
    if c != [] {
      FilterChainDistinct(c[1..], p);
      var r := FilterChain(c[1..], p);
      if p(c[0].value) {
        forall j | 0 <= j < |r| ensures r[j].key != c[0].key {
          assert r[j] in c[1..];
        }
      }
    }
  }

  /** Keeping only the entries whose value satisfies `p` yields a well-formed
      table holding exactly those entries. */
  lemma FilterInv<K, V>(b: seq<Chain<K, V>>, hash: K -> int, m: map<K, V>, p: V -> bool)
    requires Inv(b, hash, m)
    ensures Inv(FilterBuckets(b, p), hash, FilterValues(m, p))
  {
    var b': seq<Chain<K, V>> := FilterBuckets(b, p);
    var m' := FilterValues(m, p);
    forall i, j | 0 <= i < |b'| && 0 <= j < |b'[i]|
      ensures SlotOf(hash, b'[i][j].key, |b'|) == i && b'[i][j].key in m' && m'[b'[i][j].key] == b'[i][j].value
    {
      assert b'[i][j] in b[i];
    }
    forall i | 0 <= i < |b'| ensures DistinctKeys(b'[i]) {
      FilterChainDistinct(b[i], p);
    }
    forall k | k in m'
      ensures IndexOf(b'[SlotOf(hash, k, |b'|)], k) >= 0
    {
      var s := SlotOf(hash, k, |b|);
      var j := IndexOf(b[s], k);
      assert b[s][j] in FilterChain(b[s], p);
    }
  }
}

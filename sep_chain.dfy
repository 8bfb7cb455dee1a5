/**
 * Hash table with separate chaining: the upo_ht_sepchain_* functions of
 * src/hashtable.c.
 *
 * A fixed array of buckets; bucket i lists the pairs whose key hashes to
 * i, most recently added first. A linked bucket is modelled as a sequence
 * of entries read from its head; the key comparator is modelled as
 * equality of keys.
 */
module SeparateChaining {
  import opened Common

  // ---------------------------------------------------------------------
  // The abstract view of one bucket and of the bucket array.

  /** The pairs of a bucket; for a repeated key the entry nearer the head wins. */
  function BucketMap<K, V>(b: seq<Entry<K, V>>): map<K, V>
  {
    if b == [] then map[] else BucketMap(b[1..])[b[0].key := b[0].value]
  }

  /** The keys of a bucket from head to tail. */
  function BucketKeys<K, V>(b: seq<Entry<K, V>>): seq<K>
  {
    if b == [] then [] else [b[0].key] + BucketKeys(b[1..])
  }

  /** The union of the bucket maps. */
  function TableMap<K, V>(bs: seq<seq<Entry<K, V>>>): map<K, V>
  {
    if bs == [] then map[] else TableMap(bs[..|bs| - 1]) + BucketMap(bs[|bs| - 1])
  }

  /** The keys of all buckets, bucket by bucket, each from head to tail. */
  function FlatKeys<K, V>(bs: seq<seq<Entry<K, V>>>): seq<K>
  {
    if bs == [] then [] else FlatKeys(bs[..|bs| - 1]) + BucketKeys(bs[|bs| - 1])
  }

  /** The number of nodes in all buckets. */
  function TotalLen<K, V>(bs: seq<seq<Entry<K, V>>>): nat
  {
    if bs == [] then 0 else TotalLen(bs[..|bs| - 1]) + |bs[|bs| - 1]|
  }

  ghost predicate BucketUnique<K, V>(b: seq<Entry<K, V>>)
  {
    forall i, j :: 0 <= i < j < |b| ==> b[i].key != b[j].key
  }

  /** Every entry of bucket i hashes to i in a table of capacity `n`. */
  ghost predicate Partitioned<K, V>(bs: seq<seq<Entry<K, V>>>, hash: (K, nat) -> nat, n: nat)
  {
    forall i, j :: 0 <= i < |bs| && 0 <= j < |bs[i]| ==> hash(bs[i][j].key, n) == i
  }

  /** The table invariant: pairs sit in the bucket of their hash, once each. */
  ghost predicate WellFormed<K, V>(bs: seq<seq<Entry<K, V>>>, hash: (K, nat) -> nat)
  {
    Partitioned(bs, hash, |bs|) && forall i :: 0 <= i < |bs| ==> BucketUnique(bs[i])
  }

  // ---------------------------------------------------------------------
  // Bucket lemmas: a bucket map answers with the first matching entry.

  lemma {:induction false} BucketMapFirst<K, V>(b: seq<Entry<K, V>>, i: nat)
    requires i < |b| && forall j :: 0 <= j < i ==> b[j].key != b[i].key
    ensures b[i].key in BucketMap(b) && BucketMap(b)[b[i].key] == b[i].value
  {
    if i > 0 {
      BucketMapFirst(b[1..], i - 1);
    }
  }

  lemma {:induction false} BucketMapIndex<K, V>(b: seq<Entry<K, V>>, k: K) returns (i: nat)
    requires k in BucketMap(b)
    ensures i < |b| && b[i].key == k && BucketMap(b)[k] == b[i].value
    ensures forall j :: 0 <= j < i ==> b[j].key != k
  {
    if b[0].key == k {
      i := 0;
    } else {
      var i' := BucketMapIndex(b[1..], k);
      i := i' + 1;
    }
  }

  lemma {:induction false} BucketMapAbsent<K, V>(b: seq<Entry<K, V>>, k: K)
    requires forall j :: 0 <= j < |b| ==> b[j].key != k
    ensures k !in BucketMap(b)
  {
    if b != [] {
      BucketMapAbsent(b[1..], k);
    }
  }

  /** Overwriting the value of the first entry for `k` updates the bucket map at `k`. */
  lemma BucketMapSet<K, V>(b: seq<Entry<K, V>>, i: nat, v: V)
    requires i < |b| && forall j :: 0 <= j < i ==> b[j].key != b[i].key
    ensures BucketMap(b[i := Entry(b[i].key, v)]) == BucketMap(b)[b[i].key := v]
  {
    var k := b[i].key;
    var b' := b[i := Entry(k, v)];
    var m := BucketMap(b)[k := v];
    assert forall j :: 0 <= j < |b| ==> b'[j] == if j == i then Entry(k, v) else b[j];
    forall k' | k' in BucketMap(b')
      ensures k' in m && m[k'] == BucketMap(b')[k']
    {
      var j := BucketMapIndex(b', k');
      if k' != k {
        BucketMapFirst(b, j);
      }
    }
    forall k' | k' in m
      ensures k' in BucketMap(b')
    {
      if k' == k {
        BucketMapFirst(b', i);
      } else {
        var j := BucketMapIndex(b, k');
        BucketMapFirst(b', j);
      }
    }
  }

  /** Unlinking the only entry for `k` removes `k` from the bucket map. */
  lemma {:induction false} BucketMapRemove<K, V>(b: seq<Entry<K, V>>, i: nat)
    requires BucketUnique(b) && i < |b|
    ensures BucketMap(b[..i] + b[i + 1..]) == BucketMap(b) - {b[i].key}
    ensures BucketUnique(b[..i] + b[i + 1..])
  {
    UniqueRemove(b, i);
    if i == 0 {
      assert b[..i] + b[i + 1..] == b[1..];
      BucketMapAbsent(b[1..], b[0].key);
    } else {
      var r := b[1..];
      BucketMapRemove(r, i - 1);
      var r' := r[..i - 1] + r[i..];
      assert b[..i] + b[i + 1..] == [b[0]] + r';
      assert ([b[0]] + r')[1..] == r';
      assert b[i] == r[i - 1];
      RemoveThenUpdate(BucketMap(r), b[i].key, b[0].key, b[0].value);
    }
  }

  /** Unlinking a node keeps the keys of a chain distinct. */
  lemma UniqueRemove<K, V>(b: seq<Entry<K, V>>, i: nat)
    requires BucketUnique(b) && i < |b|
    ensures BucketUnique(b[..i] + b[i + 1..])
  {
    var b' := b[..i] + b[i + 1..];
    forall p, q | 0 <= p < q < |b'|
      ensures b'[p].key != b'[q].key
    {
      assert b'[p] == b[if p < i then p else p + 1];
      assert b'[q] == b[if q < i then q else q + 1];
    }
  }

  /** Removing one key and binding another commute. */
  lemma RemoveThenUpdate<K, V>(m: map<K, V>, x: K, y: K, w: V)
    requires x != y
    ensures (m - {x})[y := w] == m[y := w] - {x}
  {
  }

  lemma {:induction false} BucketMapSize<K, V>(b: seq<Entry<K, V>>)
    requires BucketUnique(b)
    ensures |BucketMap(b)| == |b|
  {
    if b != [] {
      BucketMapSize(b[1..]);
      BucketMapAbsent(b[1..], b[0].key);
    }
  }

  lemma {:induction false} BucketKeysAre<K, V>(b: seq<Entry<K, V>>)
    ensures |BucketKeys(b)| == |b|
    ensures forall k :: k in BucketKeys(b) <==> k in BucketMap(b)
  {
    if b != [] {
      BucketKeysAre(b[1..]);
    }
  }

  // ---------------------------------------------------------------------
  // Table lemmas: a key is looked up in the bucket of its hash only.

  /** When `k` can only be in bucket `i`, the table map answers as that bucket does. */
  lemma {:induction false} TableMapAt<K, V>(bs: seq<seq<Entry<K, V>>>, i: nat, k: K)
    requires forall j :: 0 <= j < |bs| && j != i ==> k !in BucketMap(bs[j])
    ensures k in TableMap(bs) <==> i < |bs| && k in BucketMap(bs[i])
    ensures k in TableMap(bs) ==> TableMap(bs)[k] == BucketMap(bs[i])[k]
  {
    if bs != [] {
      TableMapAt(bs[..|bs| - 1], i, k);
    }
  }

  lemma {:induction false} TableMapIndex<K, V>(bs: seq<seq<Entry<K, V>>>, k: K) returns (i: nat)
    requires k in TableMap(bs)
    ensures i < |bs| && k in BucketMap(bs[i])
  {
    if k in BucketMap(bs[|bs| - 1]) {
      i := |bs| - 1;
    } else {
      i := TableMapIndex(bs[..|bs| - 1], k);
    }
  }

  /** The table map holds `k` exactly as bucket hash(k) does. */
  lemma ContentsAt<K(!new), V>(bs: seq<seq<Entry<K, V>>>, hash: (K, nat) -> nat, k: K)
    requires ValidHasher(hash) && 0 < |bs| && Partitioned(bs, hash, |bs|)
    ensures var b := bs[hash(k, |bs|)];
            (k in TableMap(bs) <==> k in BucketMap(b))
            && (k in BucketMap(b) ==> TableMap(bs)[k] == BucketMap(b)[k])
  {
    var h := hash(k, |bs|);
    forall j | 0 <= j < |bs| && j != h
      ensures k !in BucketMap(bs[j])
    {
      if k in BucketMap(bs[j]) {
        var e := BucketMapIndex(bs[j], k);
      }
    }
    TableMapAt(bs, h, k);
  }

  /** Updating `k` in bucket hash(k) updates the table map at `k`. */
  lemma TableSet<K(!new), V>(bs: seq<seq<Entry<K, V>>>, hash: (K, nat) -> nat,
                             b: seq<Entry<K, V>>, k: K, v: V)
    requires ValidHasher(hash) && 0 < |bs| && Partitioned(bs, hash, |bs|)
    requires Partitioned(bs[hash(k, |bs|) := b], hash, |bs|)
    requires BucketMap(b) == BucketMap(bs[hash(k, |bs|)])[k := v]
    ensures TableMap(bs[hash(k, |bs|) := b]) == TableMap(bs)[k := v]
  {
    var bs' := bs[hash(k, |bs|) := b];
    forall k' | k' in TableMap(bs')
      ensures k' in TableMap(bs)[k := v] && TableMap(bs')[k'] == TableMap(bs)[k := v][k']
    {
      ContentsAt(bs, hash, k');
      ContentsAt(bs', hash, k');
    }
    forall k' | k' in TableMap(bs)[k := v]
      ensures k' in TableMap(bs')
    {
      ContentsAt(bs, hash, k');
      ContentsAt(bs', hash, k');
    }
  }

  /** Removing `k` from bucket hash(k) removes it from the table map. */
  lemma TableRemove<K(!new), V>(bs: seq<seq<Entry<K, V>>>, hash: (K, nat) -> nat,
                                b: seq<Entry<K, V>>, k: K)
    requires ValidHasher(hash) && 0 < |bs| && Partitioned(bs, hash, |bs|)
    requires Partitioned(bs[hash(k, |bs|) := b], hash, |bs|)
    requires BucketMap(b) == BucketMap(bs[hash(k, |bs|)]) - {k}
    ensures TableMap(bs[hash(k, |bs|) := b]) == TableMap(bs) - {k}
  {
    var bs' := bs[hash(k, |bs|) := b];
    forall k' | k' in TableMap(bs')
      ensures k' in TableMap(bs) - {k} && TableMap(bs')[k'] == TableMap(bs)[k']
    {
      ContentsAt(bs, hash, k');
      ContentsAt(bs', hash, k');
    }
    forall k' | k' in TableMap(bs) - {k}
      ensures k' in TableMap(bs')
    {
      ContentsAt(bs, hash, k');
      ContentsAt(bs', hash, k');
    }
  }

  lemma {:induction false} TableMapSize<K(!new), V>(bs: seq<seq<Entry<K, V>>>, hash: (K, nat) -> nat, n: nat)
    requires Partitioned(bs, hash, n) && forall i :: 0 <= i < |bs| ==> BucketUnique(bs[i])
    ensures |TableMap(bs)| == TotalLen(bs)
  {
    if bs != [] {
      var p := bs[..|bs| - 1];
      var last := bs[|bs| - 1];
      TableMapSize(p, hash, n);
      BucketMapSize(last);
      forall k | k in TableMap(p)
        ensures k !in BucketMap(last)
      {
        var i := TableMapIndex(p, k);
        var j := BucketMapIndex(p[i], k);
        if k in BucketMap(last) {
          var j' := BucketMapIndex(last, k);
        }
      }
      assert TableMap(p).Keys * BucketMap(last).Keys == {};
      assert TableMap(bs).Keys == TableMap(p).Keys + BucketMap(last).Keys;
    }
  }

  lemma {:induction false} FlatKeysAre<K, V>(bs: seq<seq<Entry<K, V>>>)
    ensures |FlatKeys(bs)| == TotalLen(bs)
    ensures forall k :: k in FlatKeys(bs) <==> k in TableMap(bs)
  {
    if bs != [] {
      FlatKeysAre(bs[..|bs| - 1]);
      BucketKeysAre(bs[|bs| - 1]);
    }
  }

  lemma {:induction false} TableMapEmpty<K, V>(bs: seq<seq<Entry<K, V>>>)
    requires forall i :: 0 <= i < |bs| ==> bs[i] == []
    ensures TableMap(bs) == map[]
  {
    if bs != [] {
      TableMapEmpty(bs[..|bs| - 1]);
    }
  }

  /**
   * The bucket after put, given where the search stopped: a new head when
   * `k` is absent, the value overwritten in place otherwise.
   */
  function PutInBucket<K, V>(b: seq<Entry<K, V>>, k: K, v: V, i: nat): seq<Entry<K, V>>
    requires i <= |b|
  {
    if i == |b| then [Entry(k, v)] + b else b[i := Entry(k, v)]
  }

  /** Put on the bucket the search stopped in keeps its keys distinct and binds `k` to `v`. */
  lemma BucketPut<K, V>(b: seq<Entry<K, V>>, k: K, v: V, i: nat)
    requires BucketUnique(b) && i <= |b| && forall j :: 0 <= j < i ==> b[j].key != k
    requires i < |b| ==> b[i].key == k
    ensures BucketUnique(PutInBucket(b, k, v, i))
    ensures BucketMap(PutInBucket(b, k, v, i)) == BucketMap(b)[k := v]
    ensures forall j :: 0 <= j < |PutInBucket(b, k, v, i)| ==>
              PutInBucket(b, k, v, i)[j].key == k || PutInBucket(b, k, v, i)[j].key == b[if i == |b| then j - 1 else j].key
  {
    var b' := PutInBucket(b, k, v, i);
    if i == |b| {
      BucketMapAbsent(b, k);
      assert b'[1..] == b;
      forall p, q | 0 <= p < q < |b'|
        ensures b'[p].key != b'[q].key
      {
        assert b'[q] == b[q - 1];
        if 0 < p {
          assert b'[p] == b[p - 1];
        }
      }
    } else {
      BucketMapSet(b, i, v);
    }
  }

  /** Put on bucket hash(k) keeps the table well formed and binds `k` to `v` in it. */
  lemma TablePut<K(!new), V>(bs: seq<seq<Entry<K, V>>>, hash: (K, nat) -> nat, k: K, v: V, i: nat)
    requires ValidHasher(hash) && 0 < |bs| && WellFormed(bs, hash)
    requires var b := bs[hash(k, |bs|)];
             i <= |b| && (forall j :: 0 <= j < i ==> b[j].key != k) && (i < |b| ==> b[i].key == k)
    ensures var h := hash(k, |bs|);
            WellFormed(bs[h := PutInBucket(bs[h], k, v, i)], hash)
    ensures var h := hash(k, |bs|);
            TableMap(bs[h := PutInBucket(bs[h], k, v, i)]) == TableMap(bs)[k := v]
  {
    var h := hash(k, |bs|);
    var b := bs[h];
    var b' := PutInBucket(b, k, v, i);
    BucketPut(b, k, v, i);
    var bs': seq<seq<Entry<K, V>>> := bs[h := b'];
    forall x: int, y: int | 0 <= x < |bs'| && 0 <= y < |bs'[x]|
      ensures hash(bs'[x][y].key, |bs'|) == x
    {
      if x == h && b'[y].key != k {
        assert hash(b[if i == |b| then y - 1 else y].key, |bs|) == h;
      }
    }
    TableSet(bs, hash, b', k, v);
  }

  // ---------------------------------------------------------------------

  /** The search loop shared by put, insert, get, contains and delete. */
  method FindInBucket<K(==), V>(b: seq<Entry<K, V>>, k: K) returns (i: nat)
    ensures i <= |b| && forall j :: 0 <= j < i ==> b[j].key != k
    ensures i < |b| <==> k in BucketMap(b)
    ensures i < |b| ==> b[i].key == k && BucketMap(b)[k] == b[i].value
  {
    i := 0;
    while i < |b| && b[i].key != k
      invariant i <= |b| && forall j :: 0 <= j < i ==> b[j].key != k
    {
      i := i + 1;
    }
    if i < |b| {
      BucketMapFirst(b, i);
    } else {
      BucketMapAbsent(b, k);
    }
  }

  /** A separate-chaining table (struct upo_ht_sepchain_s). */
  class Table<K(==,!new), V> {
    /** The bucket array; its length is the capacity. */
    var buckets: array<seq<Entry<K, V>>>
    /** The stored size field: set to 0 by create and clear, never updated by put. */
    var size: int
    const hash: (K, nat) -> nat

    ghost predicate Valid()
      reads this, buckets
    {
      ValidHasher(hash) && WellFormed(buckets[..], hash)
    }

    /** The key/value pairs the table holds. */
    ghost function Contents(): map<K, V>
      reads this, buckets
    {
      TableMap(buckets[..])
    }

    function Capacity(): nat
      reads this
    {
      buckets.Length
    }

    /** upo_ht_sepchain_create: `m` empty buckets. */
    constructor (m: nat, hash: (K, nat) -> nat)
      requires ValidHasher(hash)
      ensures Valid() && fresh(buckets) && buckets.Length == m && this.hash == hash
      ensures Contents() == map[] && size == 0
    {
      buckets := new seq<Entry<K, V>>[m](_ => []);
      size := 0;
      this.hash := hash;
      new;
      TableMapEmpty(buckets[..]);
    }

    /**
     * upo_ht_sepchain_put: search bucket hash(k) for `k`; overwrite its value
     * and return the old one, or add the pair as the new head and return NULL.
     */
    method Put(k: K, v: V) returns (prev: Option<V>)
      requires Valid() && 0 < buckets.Length
      modifies buckets
      ensures Valid() && Contents() == old(Contents())[k := v]
      ensures prev == Lookup(old(Contents()), k)
      ensures forall j :: 0 <= j < buckets.Length && j != hash(k, buckets.Length) ==> buckets[j] == old(buckets[j])
      ensures prev.None? ==> buckets[hash(k, buckets.Length)] == [Entry(k, v)] + old(buckets[hash(k, buckets.Length)])
      ensures prev.Some? ==>
                var b := old(buckets[hash(k, buckets.Length)]);
                exists i :: 0 <= i < |b| && b[i].key == k && buckets[hash(k, buckets.Length)] == b[i := Entry(k, v)]
    {
      var h := hash(k, buckets.Length);
      var b := buckets[h];
      ghost var bs := buckets[..];
      ContentsAt(bs, hash, k);
      var i := FindInBucket(b, k);
      TablePut(bs, hash, k, v, i);
      var b': seq<Entry<K, V>>;
      if i == |b| {
        b' := [Entry(k, v)] + b;
        prev := None;
      } else {
        prev := Some(b[i].value);
        b' := b[i := Entry(b[i].key, v)];
      }
      buckets[h] := b';
      assert buckets[..] == bs[h := b'];
      if i < |b| {
        assert buckets[h] == b[i := Entry(k, v)];
      }
    }

    /**
     * upo_ht_sepchain_insert: as put, but a present key keeps its value.
     */
    method Insert(k: K, v: V)
      requires Valid() && 0 < buckets.Length
      modifies buckets
      ensures Valid()
      ensures Contents() == if k in old(Contents()) then old(Contents()) else old(Contents())[k := v]
      ensures forall j :: 0 <= j < buckets.Length && j != hash(k, buckets.Length) ==> buckets[j] == old(buckets[j])
      ensures k in old(Contents()) ==> buckets[..] == old(buckets[..])
      ensures k !in old(Contents()) ==> buckets[hash(k, buckets.Length)] == [Entry(k, v)] + old(buckets[hash(k, buckets.Length)])
    {
      var h := hash(k, buckets.Length);
      var b := buckets[h];
      ghost var bs := buckets[..];
      ContentsAt(bs, hash, k);
      var i := FindInBucket(b, k);
      if i == |b| {
        TablePut(bs, hash, k, v, i);
        var b' := [Entry(k, v)] + b;
        buckets[h] := b';
        assert buckets[..] == bs[h := b'];
      }
    }

    /** upo_ht_sepchain_get: the value of `k`, or NULL. */
    method Get(k: K) returns (r: Option<V>)
      requires Valid() && 0 < buckets.Length
      ensures r == Lookup(Contents(), k)
    {
      var h := hash(k, buckets.Length);
      var b := buckets[h];
      ContentsAt(buckets[..], hash, k);
      var i := FindInBucket(b, k);
      if i < |b| {
        r := Some(b[i].value);
      } else {
        r := None;
      }
    }

    /** upo_ht_sepchain_contains. */
    method Contains(k: K) returns (r: bool)
      requires Valid() && 0 < buckets.Length
      ensures r <==> k in Contents()
    {
      var h := hash(k, buckets.Length);
      var b := buckets[h];
      ContentsAt(buckets[..], hash, k);
      var i := FindInBucket(b, k);
      r := i < |b|;
    }

    /**
     * upo_ht_sepchain_delete: unlink the node of `k` from its bucket. The
     * node's key and value are freed outside the found test, so with
     * `destroyData` set the key must be present.
     */
    method Delete(k: K, destroyData: bool)
      requires Valid() && 0 < buckets.Length
      requires destroyData ==> k in Contents()
      modifies buckets
      ensures Valid() && Contents() == old(Contents()) - {k}
      ensures forall j :: 0 <= j < buckets.Length && j != hash(k, buckets.Length) ==> buckets[j] == old(buckets[j])
      ensures k !in old(Contents()) ==> buckets[..] == old(buckets[..])
      ensures k in old(Contents()) ==>
                exists i :: 0 <= i < |old(buckets[hash(k, buckets.Length)])|
                            && old(buckets[hash(k, buckets.Length)])[i].key == k
                            && buckets[hash(k, buckets.Length)] == old(buckets[hash(k, buckets.Length)])[..i] + old(buckets[hash(k, buckets.Length)])[i + 1..]
    {
      var h := hash(k, buckets.Length);
      var b := buckets[h];
      ghost var bs := buckets[..];
      ContentsAt(bs, hash, k);
      var i := FindInBucket(b, k);
      if i < |b| {
        var b' := b[..i] + b[i + 1..];
        BucketMapRemove(b, i);
        buckets[h] := b';
        assert buckets[..] == bs[h := b'];
        TableRemove(bs, hash, b', k);
      }
    }

    /** upo_ht_sepchain_size: count the nodes of every bucket. */
    method Size() returns (r: nat)
      requires Valid()
      ensures r == |Contents()|
    {
      r := 0;
      for i := 0 to buckets.Length
        invariant r == TotalLen(buckets[..i])
      {
        assert buckets[..i + 1][..i] == buckets[..i];
        var b := buckets[i];
        for j := 0 to |b|
          invariant r == TotalLen(buckets[..i]) + j
        {
          r := r + 1;
        }
      }
      assert buckets[..buckets.Length] == buckets[..];
      TableMapSize(buckets[..], hash, buckets.Length);
    }

    /** upo_ht_sepchain_is_empty. */
    method IsEmpty() returns (r: bool)
      requires Valid()
      ensures r <==> Contents() == map[]
    {
      var n := Size();
      r := n == 0;
    }

    /** upo_ht_sepchain_clear: empty every bucket and reset the stored size. */
    method Clear()
      requires Valid()
      modifies this, buckets
      ensures Valid() && Contents() == map[] && buckets == old(buckets) && size == 0
      ensures forall i :: 0 <= i < buckets.Length ==> buckets[i] == []
    {
      for i := 0 to buckets.Length
        invariant buckets == old(buckets)
        invariant forall j :: 0 <= j < i ==> buckets[j] == []
        invariant forall j :: i <= j < buckets.Length ==> buckets[j] == old(buckets[j])
      {
        buckets[i] := [];
      }
      size := 0;
      TableMapEmpty(buckets[..]);
    }

    /**
     * upo_ht_sepchain_keys: the keys bucket by bucket, each bucket from its
     * head, appended at the tail of the list (upo_ht_build_key_list).
     */
    method Keys() returns (keys: seq<K>)
      requires Valid()
      ensures keys == FlatKeys(buckets[..])
      ensures |keys| == |Contents()| && forall k :: k in keys <==> k in Contents()
    {
      keys := [];
      for i := 0 to buckets.Length
        invariant keys == FlatKeys(buckets[..i])
      {
        assert buckets[..i + 1][..i] == buckets[..i];
        var b := buckets[i];
        ghost var done := keys;
        for j := 0 to |b|
          invariant keys + BucketKeys(b[j..]) == done + BucketKeys(b)
        {
          assert b[j..][1..] == b[j + 1..];
          keys := keys + [b[j].key];
        }
        assert b[|b|..] == [];
      }
      assert buckets[..buckets.Length] == buckets[..];
      FlatKeysAre(buckets[..]);
      TableMapSize(buckets[..], hash, buckets.Length);
    }
  }

  // ---------------------------------------------------------------------
  // The functions of the interface take a table handle that may be NULL:
  // then put and get give NULL, contains 0, size 0, is_empty 1 and keys
  // the empty list, while insert, delete and clear do nothing.

  /** upo_ht_sepchain_put on a handle that may be NULL. */
  method Put<K(==,!new), V>(ht: Table?<K, V>, k: K, v: V) returns (prev: Option<V>)
    requires ht != null ==> ht.Valid() && 0 < ht.buckets.Length
    modifies if ht == null then {} else {ht.buckets}
    ensures ht == null ==> prev == None
    ensures ht != null ==> ht.Valid() && ht.Contents() == old(ht.Contents())[k := v]
    ensures ht != null ==> prev == Lookup(old(ht.Contents()), k)
  {
    if ht == null {
      return None;
    }
    prev := ht.Put(k, v);
  }

  /** upo_ht_sepchain_insert on a handle that may be NULL. */
  method Insert<K(==,!new), V>(ht: Table?<K, V>, k: K, v: V)
    requires ht != null ==> ht.Valid() && 0 < ht.buckets.Length
    modifies if ht == null then {} else {ht.buckets}
    ensures ht != null ==> ht.Valid()
    ensures ht != null ==>
              ht.Contents() == if k in old(ht.Contents()) then old(ht.Contents()) else old(ht.Contents())[k := v]
  {
    if ht != null {
      ht.Insert(k, v);
    }
  }

  /** upo_ht_sepchain_get on a handle that may be NULL. */
  method Get<K(==,!new), V>(ht: Table?<K, V>, k: K) returns (r: Option<V>)
    requires ht != null ==> ht.Valid() && 0 < ht.buckets.Length
    ensures r == if ht == null then None else Lookup(ht.Contents(), k)
  {
    if ht == null {
      return None;
    }
    r := ht.Get(k);
  }

  /** upo_ht_sepchain_contains on a handle that may be NULL. */
  method Contains<K(==,!new), V>(ht: Table?<K, V>, k: K) returns (r: bool)
    requires ht != null ==> ht.Valid() && 0 < ht.buckets.Length
    ensures r <==> ht != null && k in ht.Contents()
  {
    if ht == null {
      return false;
    }
    r := ht.Contains(k);
  }

  /** upo_ht_sepchain_delete on a handle that may be NULL. */
  method Delete<K(==,!new), V>(ht: Table?<K, V>, k: K, destroyData: bool)
    requires ht != null ==> ht.Valid() && 0 < ht.buckets.Length
    requires ht != null && destroyData ==> k in ht.Contents()
    modifies if ht == null then {} else {ht.buckets}
    ensures ht != null ==> ht.Valid() && ht.Contents() == old(ht.Contents()) - {k}
  {
    if ht != null {
      ht.Delete(k, destroyData);
    }
  }

  /** upo_ht_sepchain_clear on a handle that may be NULL. */
  method Clear<K(==,!new), V>(ht: Table?<K, V>)
    requires ht != null ==> ht.Valid()
    modifies ht, if ht == null then {} else {ht.buckets}
    ensures ht != null ==> ht.Valid() && ht.Contents() == map[] && ht.buckets == old(ht.buckets)
  {
    if ht != null {
      ht.Clear();
    }
  }

  /** upo_ht_sepchain_size on a handle that may be NULL. */
  method Size<K(==,!new), V>(ht: Table?<K, V>) returns (r: nat)
    requires ht != null ==> ht.Valid()
    ensures r == if ht == null then 0 else |ht.Contents()|
  {
    if ht == null {
      return 0;
    }
    r := ht.Size();
  }

  /** upo_ht_sepchain_is_empty: its size is 0, so a NULL handle is empty. */
  method IsEmpty<K(==,!new), V>(ht: Table?<K, V>) returns (r: bool)
    requires ht != null ==> ht.Valid()
    ensures r <==> ht == null || ht.Contents() == map[]
  {
    var n := Size(ht);
    r := n == 0;
  }

  /** upo_ht_sepchain_keys on a handle that may be NULL. */
  method Keys<K(==,!new), V>(ht: Table?<K, V>) returns (keys: seq<K>)
    requires ht != null ==> ht.Valid()
    ensures ht == null ==> keys == []
    ensures ht != null ==> keys == FlatKeys(ht.buckets[..])
    ensures ht != null ==> forall k :: k in keys <==> k in ht.Contents()
  {
    if ht == null {
      return [];
    }
    keys := ht.Keys();
  }
}

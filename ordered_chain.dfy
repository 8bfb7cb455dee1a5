/**
 * Separate chaining with "ordered" buckets: the upo_ht_sepchain_olist_*
 * functions of src/hashtable.c.
 *
 * Keys are integers and the three-way comparator is their order, so
 * `cmp(key, node->key) < 0` reads `key < node.key`. The bucket walks of
 * put and insert are modelled as written: they advance while the new key
 * is smaller than the node's, prepend when they run off the end, and splice
 * through the trailing `previous` pointer otherwise, which is NULL when the
 * walk stopped at the head. The bucket invariant that these walks keep is
 * the ascending order (see Ascending), not the one the walk seems to aim at.
 */
module OrderedChaining {
  import opened Common
  import opened SeparateChaining

  /** Strictly ascending keys from head to tail. */
  ghost predicate Ascending<V>(b: seq<Entry<int, V>>)
  {
    forall i, j :: 0 <= i < j < |b| ==> b[i].key < b[j].key
  }

  ghost predicate AllAscending<V>(bs: seq<seq<Entry<int, V>>>)
  {
    forall i :: 0 <= i < |bs| ==> Ascending(bs[i])
  }

  /** Where the walk of put and insert stops: the first node whose key is not greater than `k`. */
  function ScanLess<V>(b: seq<Entry<int, V>>, k: int): (r: nat)
    ensures r <= |b| && forall j :: 0 <= j < r ==> k < b[j].key
    ensures r < |b| ==> b[r].key <= k
  {
    if b == [] || b[0].key <= k then 0 else 1 + ScanLess(b[1..], k)
  }

  /** The first node holding `k`: where the walk of get, contains and delete stops. */
  function ScanEq<V>(b: seq<Entry<int, V>>, k: int): (r: nat)
    ensures r <= |b| && forall j :: 0 <= j < r ==> b[j].key != k
    ensures r < |b| ==> b[r].key == k
  {
    if b == [] || b[0].key == k then 0 else 1 + ScanEq(b[1..], k)
  }

  /** The splice branch of put and insert needs a `previous` node: NULL at the head. */
  predicate SplicesAtHead<V>(b: seq<Entry<int, V>>, k: int)
  {
    b != [] && b[0].key < k
  }

  /**
   * The bucket after upo_ht_sepchain_olist_put, or None where the source
   * dereferences the NULL `previous`.
   */
  function PutAsWritten<V>(b: seq<Entry<int, V>>, k: int, v: V): Option<seq<Entry<int, V>>>
  {
    var i := ScanLess(b, k);
    if i == |b| then Some([Entry(k, v)] + b)
    else if b[i].key == k then Some(b[i := Entry(b[i].key, v)])
    else if i == 0 then None
    else Some(b[..i] + [Entry(k, v)] + b[i..])
  }

  /** The bucket after upo_ht_sepchain_olist_insert, or None where it dereferences NULL. */
  function InsertAsWritten<V>(b: seq<Entry<int, V>>, k: int, v: V): Option<seq<Entry<int, V>>>
  {
    var i := ScanLess(b, k);
    if i == |b| then Some([Entry(k, v)] + b)
    else if b[i].key < k then (if i == 0 then None else Some(b[..i] + [Entry(k, v)] + b[i..]))
    else Some(b)
  }

  /** The bucket after upo_ht_sepchain_olist_delete: the first node holding `k` unlinked. */
  function DeleteFirst<V>(b: seq<Entry<int, V>>, k: int): seq<Entry<int, V>>
  {
    var i := ScanEq(b, k);
    if i < |b| then b[..i] + b[i + 1..] else b
  }

  /**
   * The evidently intended put of an ascending bucket: walk past the smaller
   * keys, overwrite an equal key, otherwise link the pair in before the first
   * greater key (at the head or at the tail when that is where the walk ends).
   */
  function SortedPut<V>(b: seq<Entry<int, V>>, k: int, v: V): seq<Entry<int, V>>
  {
    var i := ScanGreater(b, k);
    if i < |b| && b[i].key == k then b[i := Entry(k, v)] else b[..i] + [Entry(k, v)] + b[i..]
  }

  /** The first node whose key is not smaller than `k`. */
  function ScanGreater<V>(b: seq<Entry<int, V>>, k: int): (r: nat)
    ensures r <= |b| && forall j :: 0 <= j < r ==> b[j].key < k
    ensures r < |b| ==> k <= b[r].key
  {
    if b == [] || k <= b[0].key then 0 else 1 + ScanGreater(b[1..], k)
  }

  // ---------------------------------------------------------------------
  // Properties of the bucket operations.

  lemma AscendingUnique<V>(b: seq<Entry<int, V>>)
    requires Ascending(b)
    ensures BucketUnique(b)
  {
  }

  /** Linking a pair in where no earlier node holds its key makes it the pair's binding. */
  lemma {:induction false} BucketMapInsertAt<V>(b: seq<Entry<int, V>>, i: nat, e: Entry<int, V>)
    requires i <= |b| && forall j :: 0 <= j < i ==> b[j].key != e.key
    ensures BucketMap(b[..i] + [e] + b[i..]) == BucketMap(b)[e.key := e.value]
  {
    if i == 0 {
      assert b[..i] + [e] + b[i..] == [e] + b;
      assert ([e] + b)[1..] == b;
    } else {
      var r := b[1..];
      BucketMapInsertAt(r, i - 1, e);
      assert (b[..i] + [e] + b[i..])[1..] == r[..i - 1] + [e] + r[i - 1..];
    }
  }

  /** Wherever the as-written put does not fail, it binds `k` to `v`. */
  lemma PutAsWrittenIsUpdate<V>(b: seq<Entry<int, V>>, k: int, v: V)
    requires PutAsWritten(b, k, v).Some?
    ensures BucketMap(PutAsWritten(b, k, v).value) == BucketMap(b)[k := v]
  {
    var i := ScanLess(b, k);
    if i == |b| {
      assert ([Entry(k, v)] + b)[1..] == b;
    } else if b[i].key == k {
      BucketMapSet(b, i, v);
    } else {
      BucketMapInsertAt(b, i, Entry(k, v));
    }
  }

  /**
   * On an ascending bucket the as-written put fails exactly when `k` is
   * greater than the head; otherwise it prepends a new smallest key or
   * overwrites the head, and the bucket stays ascending.
   */
  lemma PutAsWrittenAscending<V>(b: seq<Entry<int, V>>, k: int, v: V)
    requires Ascending(b)
    ensures PutAsWritten(b, k, v).None? <==> SplicesAtHead(b, k)
    ensures PutAsWritten(b, k, v).Some? ==>
              var b' := PutAsWritten(b, k, v).value;
              Ascending(b') && (b' == [Entry(k, v)] + b || b' == b[0 := Entry(k, v)])
  {
    var i := ScanLess(b, k);
    assert i == 0 || i == |b|;
  }

  /** The same for insert: on an ascending bucket it fails exactly when `k` exceeds the head. */
  lemma InsertAsWrittenAscending<V>(b: seq<Entry<int, V>>, k: int, v: V)
    requires Ascending(b)
    ensures InsertAsWritten(b, k, v).None? <==> SplicesAtHead(b, k)
    ensures InsertAsWritten(b, k, v).Some? ==>
              var b' := InsertAsWritten(b, k, v).value;
              Ascending(b')
              && BucketMap(b') == (if k in BucketMap(b) then BucketMap(b) else BucketMap(b)[k := v])
  {
    var i := ScanLess(b, k);
    assert i == 0 || i == |b|;
    if i == |b| {
      BucketMapAbsent(b, k);
      assert ([Entry(k, v)] + b)[1..] == b;
    } else if b[i].key == k {
      BucketMapFirst(b, i);
    }
  }

  /** Unlinking the first node holding `k` from an ascending bucket removes `k` and keeps the order. */
  lemma DeleteFirstAscending<V>(b: seq<Entry<int, V>>, k: int)
    requires Ascending(b)
    ensures Ascending(DeleteFirst(b, k))
    ensures BucketMap(DeleteFirst(b, k)) == BucketMap(b) - {k}
  {
    var i := ScanEq(b, k);
    if i < |b| {
      BucketMapRemove(b, i);
      AscendingRemove(b, i);
    } else {
      BucketMapAbsent(b, k);
    }
  }

  /** The intended put keeps a bucket ascending and binds `k` to `v`, whatever `k` is. */
  lemma SortedPutCorrect<V>(b: seq<Entry<int, V>>, k: int, v: V)
    requires Ascending(b)
    ensures Ascending(SortedPut(b, k, v))
    ensures BucketMap(SortedPut(b, k, v)) == BucketMap(b)[k := v]
  {
    var i := ScanGreater(b, k);
    if i < |b| && b[i].key == k {
      BucketMapSet(b, i, v);
    } else {
      BucketMapInsertAt(b, i, Entry(k, v));
      AscendingInsertAt(b, i, Entry(k, v));
    }
  }

  /** The put of the source fails on bucket [5] with key 7, which the intended put links in after 5. */
  lemma PutAsWrittenFailsOnGreaterKey<V>(v: V)
    ensures PutAsWritten([Entry(5, v)], 7, v).None?
    ensures SortedPut([Entry(5, v)], 7, v) == [Entry(5, v), Entry(7, v)]
  {
    assert ScanLess([Entry(5, v)], 7) == 0;
    assert ScanGreater([Entry(5, v)], 7) == 1;
  }

  lemma AscendingRemove<V>(b: seq<Entry<int, V>>, i: nat)
    requires Ascending(b) && i < |b|
    ensures Ascending(b[..i] + b[i + 1..])
  {
    var b' := b[..i] + b[i + 1..];
    forall j1, j2 | 0 <= j1 < j2 < |b'|
      ensures b'[j1].key < b'[j2].key
    {
      var a := if j1 < i then j1 else j1 + 1;
      var c := if j2 < i then j2 else j2 + 1;
      assert b'[j1] == b[a] && b'[j2] == b[c];
    }
  }

  lemma AscendingInsertAt<V>(b: seq<Entry<int, V>>, i: nat, e: Entry<int, V>)
    requires Ascending(b) && i <= |b|
    requires forall j :: 0 <= j < i ==> b[j].key < e.key
    requires i < |b| ==> e.key < b[i].key
    ensures Ascending(b[..i] + [e] + b[i..])
  {
    var b' := b[..i] + [e] + b[i..];
    forall j1, j2 | 0 <= j1 < j2 < |b'|
      ensures b'[j1].key < b'[j2].key
    {
      assert b'[j1] == if j1 < i then b[j1] else if j1 == i then e else b[j1 - 1];
      assert b'[j2] == if j2 < i then b[j2] else if j2 == i then e else b[j2 - 1];
    }
  }

  /** Every entry of `b` hashes to `h`. */
  ghost predicate AllHashTo<V>(b: seq<Entry<int, V>>, hash: (int, nat) -> nat, n: nat, h: nat)
  {
    forall j :: 0 <= j < |b| ==> hash(b[j].key, n) == h
  }

  /** Linking in, prepending, overwriting at or unlinking index `i` adds no key but `e.key`. */
  lemma EditsStayInBucket<V>(b: seq<Entry<int, V>>, i: nat, e: Entry<int, V>, hash: (int, nat) -> nat, n: nat, h: nat)
    requires AllHashTo(b, hash, n, h) && hash(e.key, n) == h && i <= |b|
    ensures AllHashTo(b[..i] + [e] + b[i..], hash, n, h)
    ensures AllHashTo([e] + b, hash, n, h)
    ensures i < |b| ==> AllHashTo(b[i := Entry(b[i].key, e.value)], hash, n, h)
  {
    var b' := b[..i] + [e] + b[i..];
    forall j | 0 <= j < |b'|
      ensures hash(b'[j].key, n) == h
    {
      assert b'[j] == if j < i then b[j] else if j == i then e else b[j - 1];
    }
    forall j | 0 <= j < |b| + 1
      ensures hash(([e] + b)[j].key, n) == h
    {
      assert ([e] + b)[j] == if j == 0 then e else b[j - 1];
    }
  }

  /** Put and insert leave in the bucket only keys that hash to it. */
  lemma StaysInBucket<V>(b: seq<Entry<int, V>>, k: int, v: V, hash: (int, nat) -> nat, n: nat, h: nat)
    requires AllHashTo(b, hash, n, h) && hash(k, n) == h
    ensures PutAsWritten(b, k, v).Some? ==> AllHashTo(PutAsWritten(b, k, v).value, hash, n, h)
    ensures InsertAsWritten(b, k, v).Some? ==> AllHashTo(InsertAsWritten(b, k, v).value, hash, n, h)
    ensures AllHashTo(SortedPut(b, k, v), hash, n, h)
  {
    EditsStayInBucket(b, ScanLess(b, k), Entry(k, v), hash, n, h);
    EditsStayInBucket(b, ScanGreater(b, k), Entry(k, v), hash, n, h);
  }

  /** Delete leaves in the bucket only keys that were there. */
  lemma DeleteStaysInBucket<V>(b: seq<Entry<int, V>>, k: int, hash: (int, nat) -> nat, n: nat, h: nat)
    requires AllHashTo(b, hash, n, h)
    ensures AllHashTo(DeleteFirst(b, k), hash, n, h)
  {
    var i := ScanEq(b, k);
    if i < |b| {
      var r := b[..i] + b[i + 1..];
      forall j | 0 <= j < |r|
        ensures hash(r[j].key, n) == h
      {
        assert r[j] == if j < i then b[j] else b[j + 1];
      }
    }
  }

  lemma PartitionedReplace<V>(bs: seq<seq<Entry<int, V>>>, hash: (int, nat) -> nat, h: nat, b: seq<Entry<int, V>>)
    requires h < |bs| && Partitioned(bs, hash, |bs|) && AllHashTo(b, hash, |bs|, h)
    ensures Partitioned(bs[h := b], hash, |bs|)
  {
  }

  /**
   * Replacing the bucket of `k` by what insert made of it keeps the table
   * partitioned, and on ascending buckets adds `k` unless it was present.
   */
  lemma InsertBucket<V>(bs: seq<seq<Entry<int, V>>>, hash: (int, nat) -> nat, k: int, v: V, b: seq<Entry<int, V>>)
    requires ValidHasher(hash) && 0 < |bs| && Partitioned(bs, hash, |bs|)
    requires AllHashTo(b, hash, |bs|, hash(k, |bs|))
    requires AllAscending(bs) ==> Ascending(b)
    requires AllAscending(bs) ==>
               BucketMap(b) == var m := BucketMap(bs[hash(k, |bs|)]); if k in m then m else m[k := v]
    ensures Partitioned(bs[hash(k, |bs|) := b], hash, |bs|)
    ensures AllAscending(bs) ==> AllAscending(bs[hash(k, |bs|) := b])
    ensures AllAscending(bs) ==>
              TableMap(bs[hash(k, |bs|) := b]) == if k in TableMap(bs) then TableMap(bs) else TableMap(bs)[k := v]
  {
    PartitionedReplace(bs, hash, hash(k, |bs|), b);
    if AllAscending(bs) {
      InsertedContents(bs, hash, b, k, v);
    }
  }

  /**
   * Replacing the bucket of `k` by one that binds `k` to `v` and holds only
   * keys hashing there sets `k` in the table, and keeps the table ascending
   * when the new bucket is.
   */
  lemma PutBucket<V>(bs: seq<seq<Entry<int, V>>>, hash: (int, nat) -> nat, k: int, v: V, b: seq<Entry<int, V>>)
    requires ValidHasher(hash) && 0 < |bs| && Partitioned(bs, hash, |bs|)
    requires AllHashTo(b, hash, |bs|, hash(k, |bs|))
    requires BucketMap(b) == BucketMap(bs[hash(k, |bs|)])[k := v]
    ensures Partitioned(bs[hash(k, |bs|) := b], hash, |bs|)
    ensures TableMap(bs[hash(k, |bs|) := b]) == TableMap(bs)[k := v]
    ensures AllAscending(bs) && Ascending(b) ==> AllAscending(bs[hash(k, |bs|) := b])
  {
    PartitionedReplace(bs, hash, hash(k, |bs|), b);
    TableSet(bs, hash, b, k, v);
  }

  /** What the walk of put finds: the old binding of `k` when it stops on `k`, none on an ascending bucket otherwise. */
  lemma PutWalkFinds<V>(b: seq<Entry<int, V>>, k: int)
    ensures var i := ScanLess(b, k);
            i < |b| && b[i].key == k ==> Lookup(BucketMap(b), k) == Some(b[i].value)
    ensures var i := ScanLess(b, k);
            Ascending(b) && !SplicesAtHead(b, k) && !(i < |b| && b[i].key == k) ==> k !in BucketMap(b)
  {
    var i := ScanLess(b, k);
    if i < |b| && b[i].key == k {
      BucketMapFirst(b, i);
    } else if Ascending(b) && !SplicesAtHead(b, k) {
      assert i == |b|;
      BucketMapAbsent(b, k);
    }
  }

  /** A table map over buckets holding something is not empty. */
  lemma {:induction false} TableMapEmptyIff<V>(bs: seq<seq<Entry<int, V>>>)
    ensures TableMap(bs) == map[] <==> TotalLen(bs) == 0
  {
    if bs != [] {
      var last := bs[|bs| - 1];
      TableMapEmptyIff(bs[..|bs| - 1]);
      if last != [] {
        BucketMapFirst(last, 0);
        assert last[0].key in TableMap(bs);
      }
    }
  }

  // ---------------------------------------------------------------------

  /** An ordered-list table (struct upo_ht_sepchain_olist_s). */
  class Table<V> {
    var buckets: array<seq<Entry<int, V>>>
    /** The stored size field: put and insert increment it, delete does not decrement it. */
    var size: int
    const hash: (int, nat) -> nat

    ghost predicate Valid()
      reads this, buckets
    {
      ValidHasher(hash) && Partitioned(buckets[..], hash, buckets.Length)
    }

    ghost function Contents(): map<int, V>
      reads this, buckets
    {
      TableMap(buckets[..])
    }

    function Capacity(): nat
      reads this
    {
      buckets.Length
    }

    /** upo_ht_sepchain_olist_create. */
    constructor (m: nat, hash: (int, nat) -> nat)
      requires ValidHasher(hash)
      ensures Valid() && fresh(buckets) && buckets.Length == m && this.hash == hash
      ensures Contents() == map[] && AllAscending(buckets[..]) && size == 0
    {
      buckets := new seq<Entry<int, V>>[m](_ => []);
      size := 0;
      this.hash := hash;
      new;
      TableMapEmpty(buckets[..]);
    }

    /** The walk of put and insert over bucket `b`. */
    static method WalkLess(b: seq<Entry<int, V>>, k: int) returns (i: nat)
      ensures i == ScanLess(b, k)
    {
      i := 0;
      while i < |b| && k < b[i].key
        invariant i <= |b| && forall j :: 0 <= j < i ==> k < b[j].key
      {
        i := i + 1;
      }
    }

    /** The walk of get, contains and delete over bucket `b`. */
    static method WalkEq(b: seq<Entry<int, V>>, k: int) returns (i: nat)
      ensures i == ScanEq(b, k)
      ensures i < |b| <==> k in BucketMap(b)
      ensures i < |b| ==> BucketMap(b)[k] == b[i].value
    {
      i := 0;
      while i < |b| && b[i].key != k
        invariant i <= |b| && forall j :: 0 <= j < i ==> b[j].key != k
      {
        i := i + 1;
      }
      if i < |b| {
        BucketMapFirst(b, i);
      } else {
        BucketMapAbsent(b, k);
      }
    }

    /**
     * The bucket step of upo_ht_sepchain_olist_put: walk, then prepend at the
     * end of the walk, overwrite an equal key, or splice the pair in.
     */
    static method BucketPut(b: seq<Entry<int, V>>, k: int, v: V) returns (b': seq<Entry<int, V>>, prev: Option<V>)
      requires !SplicesAtHead(b, k)
      ensures PutAsWritten(b, k, v) == Some(b')
      ensures BucketMap(b') == BucketMap(b)[k := v]
      ensures prev.Some? ==> prev == Lookup(BucketMap(b), k)
      ensures |b'| == |b| + (if prev.None? then 1 else 0)
      ensures Ascending(b) ==> Ascending(b') && prev == Lookup(BucketMap(b), k)
    {
      var i := WalkLess(b, k);
      prev := None;
      if i == |b| {
        b' := [Entry(k, v)] + b;
      } else if b[i].key == k {
        prev := Some(b[i].value);
        b' := b[i := Entry(b[i].key, v)];
      } else {
        b' := b[..i] + [Entry(k, v)] + b[i..];
      }
      PutWalkFinds(b, k);
      PutAsWrittenIsUpdate(b, k, v);
      if Ascending(b) {
        PutAsWrittenAscending(b, k, v);
      }
    }

    /**
     * upo_ht_sepchain_olist_put as written. With no slots (capacity 0) it
     * returns NULL; otherwise the walk must not end at the head with a
     * smaller head key, where `previous` is NULL.
     */
    method Put(k: int, v: V) returns (prev: Option<V>)
      requires Valid()
      requires 0 < buckets.Length ==> !SplicesAtHead(buckets[hash(k, buckets.Length)], k)
      modifies this, buckets
      ensures buckets == old(buckets) && Valid()
      ensures buckets.Length == 0 ==> prev.None? && size == old(size)
      ensures 0 < buckets.Length ==>
                var h := hash(k, buckets.Length);
                && PutAsWritten(old(buckets[h]), k, v) == Some(buckets[h])
                && (forall j :: 0 <= j < buckets.Length && j != h ==> buckets[j] == old(buckets[j]))
                && Contents() == old(Contents())[k := v]
                && (prev.Some? ==> prev == Lookup(old(Contents()), k))
                && size == old(size) + |buckets[h]| - |old(buckets[h])|
      ensures AllAscending(old(buckets[..])) ==> AllAscending(buckets[..])
      ensures AllAscending(old(buckets[..])) ==> prev == Lookup(old(Contents()), k)
    {
      if buckets.Length == 0 {
        return None;
      }
      var h := hash(k, buckets.Length);
      var b := buckets[h];
      ghost var bs := buckets[..];
      ContentsAt(bs, hash, k);
      var b';
      b', prev := BucketPut(b, k, v);
      size := size + |b'| - |b|;
      assert AllHashTo(b, hash, buckets.Length, h);
      StaysInBucket(b, k, v, hash, buckets.Length, h);
      PutBucket(bs, hash, k, v, b');
      buckets[h] := b';
      assert buckets[..] == bs[h := b'];
    }

    /**
     * upo_ht_sepchain_olist_insert as written: like put, but an equal key is
     * left alone. It does not test for missing slots, so the capacity must be
     * positive.
     */
    method Insert(k: int, v: V)
      requires Valid() && 0 < buckets.Length
      requires !SplicesAtHead(buckets[hash(k, buckets.Length)], k)
      modifies this, buckets
      ensures buckets == old(buckets) && Valid()
      ensures var h := hash(k, buckets.Length);
              && InsertAsWritten(old(buckets[h]), k, v) == Some(buckets[h])
              && (forall j :: 0 <= j < buckets.Length && j != h ==> buckets[j] == old(buckets[j]))
              && size == old(size) + |buckets[h]| - |old(buckets[h])|
      ensures AllAscending(old(buckets[..])) ==> AllAscending(buckets[..])
      ensures AllAscending(old(buckets[..])) ==>
                Contents() == if k in old(Contents()) then old(Contents()) else old(Contents())[k := v]
    {
      var h := hash(k, buckets.Length);
      var b := buckets[h];
      ghost var bs := buckets[..];
      var b' := BucketInsert(b, k, v);
      size := size + |b'| - |b|;
      assert AllHashTo(b, hash, buckets.Length, h);
      StaysInBucket(b, k, v, hash, buckets.Length, h);
      InsertBucket(bs, hash, k, v, b');
      buckets[h] := b';
      assert buckets[..] == bs[h := b'];
    }

    /** The walk and splice of upo_ht_sepchain_olist_insert on one bucket. */
    static method BucketInsert(b: seq<Entry<int, V>>, k: int, v: V) returns (b': seq<Entry<int, V>>)
      requires !SplicesAtHead(b, k)
      ensures InsertAsWritten(b, k, v) == Some(b')
      ensures Ascending(b) ==> Ascending(b') && BucketMap(b') == if k in BucketMap(b) then BucketMap(b) else BucketMap(b)[k := v]
    {
      var i := WalkLess(b, k);
      b' := b;
      if i == |b| {
        b' := [Entry(k, v)] + b;
      } else if b[i].key < k {
        b' := b[..i] + [Entry(k, v)] + b[i..];
      }
      if Ascending(b) {
        InsertAsWrittenAscending(b, k, v);
      }
    }

    /** upo_ht_sepchain_olist_get: the value of the first node holding `k`, or NULL. */
    method Get(k: int) returns (r: Option<V>)
      requires Valid()
      ensures r == Lookup(Contents(), k)
    {
      if buckets.Length == 0 {
        TableMapEmpty(buckets[..]);
        return None;
      }
      var h := hash(k, buckets.Length);
      var b := buckets[h];
      ContentsAt(buckets[..], hash, k);
      var i := WalkEq(b, k);
      if i < |b| {
        r := Some(b[i].value);
      } else {
        r := None;
      }
    }

    /** upo_ht_sepchain_olist_contains. */
    method Contains(k: int) returns (r: bool)
      requires Valid()
      ensures r <==> k in Contents()
    {
      if buckets.Length == 0 {
        TableMapEmpty(buckets[..]);
        return false;
      }
      var h := hash(k, buckets.Length);
      var b := buckets[h];
      ContentsAt(buckets[..], hash, k);
      var i := WalkEq(b, k);
      r := i < |b|;
    }

    /**
     * upo_ht_sepchain_olist_delete: unlink the first node holding `k`. The
     * stored size is not decremented.
     */
    method Delete(k: int)
      requires Valid()
      modifies buckets
      ensures Valid()
      ensures forall j :: 0 <= j < buckets.Length && j != hash(k, buckets.Length) ==> buckets[j] == old(buckets[j])
      ensures 0 < buckets.Length ==> buckets[hash(k, buckets.Length)] == DeleteFirst(old(buckets[hash(k, buckets.Length)]), k)
      ensures AllAscending(old(buckets[..])) ==> AllAscending(buckets[..]) && Contents() == old(Contents()) - {k}
    {
      if buckets.Length == 0 {
        return;
      }
      var h := hash(k, buckets.Length);
      var b := buckets[h];
      ghost var bs := buckets[..];
      var i := WalkEq(b, k);
      var b' := b;
      if i < |b| {
        b' := b[..i] + b[i + 1..];
      }
      assert AllHashTo(b, hash, buckets.Length, h);
      DeleteStaysInBucket(b, k, hash, buckets.Length, h);
      PartitionedReplace(bs, hash, h, b');
      buckets[h] := b';
      assert buckets[..] == bs[h := b'];
      if AllAscending(bs) {
        DeleteFirstAscending(b, k);
        TableRemove(bs, hash, b', k);
      }
    }

    /** upo_ht_sepchain_olist_size: count the nodes of every bucket. */
    method Size() returns (r: nat)
      requires Valid()
      ensures r == TotalLen(buckets[..])
      ensures AllAscending(buckets[..]) ==> r == |Contents()|
    {
      r := 0;
      for i := 0 to buckets.Length
        invariant r == TotalLen(buckets[..i])
      {
        assert buckets[..i + 1][..i] == buckets[..i];
        var b := buckets[i];
        for j := 0 to |b|
          invariant r == TotalLen(buckets[..i]) + j
        {
          r := r + 1;
        }
      }
      assert buckets[..buckets.Length] == buckets[..];
      if AllAscending(buckets[..]) {
        TableMapSize(buckets[..], hash, buckets.Length);
      }
    }

    /** upo_ht_sepchain_olist_is_empty. */
    method IsEmpty() returns (r: bool)
      requires Valid()
      ensures r <==> Contents() == map[]
    {
      var n := Size();
      TableMapEmptyIff(buckets[..]);
      r := n == 0;
    }

    /** upo_ht_sepchain_olist_clear. */
    method Clear()
      requires Valid()
      modifies this, buckets
      ensures Valid() && Contents() == map[] && buckets == old(buckets) && size == 0
      ensures forall i :: 0 <= i < buckets.Length ==> buckets[i] == []
    {
      for i := 0 to buckets.Length
        invariant buckets == old(buckets)
        invariant forall j :: 0 <= j < i ==> buckets[j] == []
        invariant forall j :: i <= j < buckets.Length ==> buckets[j] == old(buckets[j])
      {
        buckets[i] := [];
      }
      size := 0;
      TableMapEmpty(buckets[..]);
    }

    /**
     * The bucket step of the intended put: walk past the smaller keys, then
     * overwrite the equal key or link the pair in where the walk stopped.
     */
    static method SortedBucketPut(b: seq<Entry<int, V>>, k: int, v: V) returns (b': seq<Entry<int, V>>, prev: Option<V>)
      requires Ascending(b)
      ensures b' == SortedPut(b, k, v)
      ensures prev == Lookup(BucketMap(b), k)
    {
      var i := 0;
      while i < |b| && b[i].key < k
        invariant i <= |b| && forall j :: 0 <= j < i ==> b[j].key < k
      {
        i := i + 1;
      }
      assert i == ScanGreater(b, k);
      SortedPutFinds(b, k);
      if i < |b| && b[i].key == k {
        prev := Some(b[i].value);
        b' := b[i := Entry(k, v)];
      } else {
        prev := None;
        b' := b[..i] + [Entry(k, v)] + b[i..];
      }
    }

    /**
     * The put the ordered buckets call for: the walk stops at the first key
     * not smaller than `k`, and the new node is linked in there, at the head
     * when no node precedes it.
     */
    method PutSorted(k: int, v: V) returns (prev: Option<V>)
      requires Valid() && 0 < buckets.Length && AllAscending(buckets[..])
      modifies this, buckets
      ensures buckets == old(buckets) && Valid() && AllAscending(buckets[..])
      ensures Contents() == old(Contents())[k := v] && prev == Lookup(old(Contents()), k)
      ensures buckets[hash(k, buckets.Length)] == SortedPut(old(buckets[hash(k, buckets.Length)]), k, v)
      ensures forall j :: 0 <= j < buckets.Length && j != hash(k, buckets.Length) ==> buckets[j] == old(buckets[j])
      ensures size == old(size) + (if prev.None? then 1 else 0)
    {
      var h := hash(k, buckets.Length);
      var b := buckets[h];
      ghost var bs := buckets[..];
      ContentsAt(bs, hash, k);
      var b';
      b', prev := SortedBucketPut(b, k, v);
      if prev.None? {
        size := size + 1;
      }
      SortedPutCorrect(b, k, v);
      assert AllHashTo(b, hash, buckets.Length, h);
      StaysInBucket(b, k, v, hash, buckets.Length, h);
      PutBucket(bs, hash, k, v, b');
      buckets[h] := b';
      assert buckets[..] == bs[h := b'];
    }
  }

  /** Binding a key to the value it already has changes nothing. */
  lemma SelfUpdate<V>(m: map<int, V>, k: int)
    requires k in m
    ensures m[k := m[k]] == m
  {
  }

  /** What insert does to the table when its bucket behaves as a map insert. */
  lemma InsertedContents<V>(bs: seq<seq<Entry<int, V>>>, hash: (int, nat) -> nat, b: seq<Entry<int, V>>, k: int, v: V)
    requires ValidHasher(hash) && 0 < |bs| && Partitioned(bs, hash, |bs|)
    requires Partitioned(bs[hash(k, |bs|) := b], hash, |bs|)
    requires BucketMap(b) == var m := BucketMap(bs[hash(k, |bs|)]); if k in m then m else m[k := v]
    ensures TableMap(bs[hash(k, |bs|) := b]) == if k in TableMap(bs) then TableMap(bs) else TableMap(bs)[k := v]
  {
    ContentsAt(bs, hash, k);
    var m := TableMap(bs);
    if k in m {
      SelfUpdate(BucketMap(bs[hash(k, |bs|)]), k);
      TableSet(bs, hash, b, k, m[k]);
      SelfUpdate(m, k);
    } else {
      TableSet(bs, hash, b, k, v);
    }
  }

  /** What the walk of the intended put finds in an ascending bucket: the old binding of `k`, if any. */
  lemma SortedPutFinds<V>(b: seq<Entry<int, V>>, k: int)
    requires Ascending(b)
    ensures var i := ScanGreater(b, k);
            Lookup(BucketMap(b), k) == if i < |b| && b[i].key == k then Some(b[i].value) else None
  {
    var i := ScanGreater(b, k);
    if i < |b| && b[i].key == k {
      BucketMapFirst(b, i);
    } else {
      AscendingAbsent(b, i, k);
    }
  }

  /** In an ascending bucket a key is absent when the walk passed the smaller keys and stopped elsewhere. */
  lemma AscendingAbsent<V>(b: seq<Entry<int, V>>, i: nat, k: int)
    requires Ascending(b) && i <= |b| && forall j :: 0 <= j < i ==> b[j].key < k
    requires i < |b| ==> k < b[i].key
    ensures k !in BucketMap(b)
  {
    forall j | 0 <= j < |b|
      ensures b[j].key != k
    {
      if i < j {
        assert b[i].key < b[j].key;
      }
    }
    BucketMapAbsent(b, k);
  }

  // ---------------------------------------------------------------------
  // The functions of the interface take a table handle that may be NULL:
  // then put and get give NULL, contains 0, size 0 and is_empty 1, while
  // insert, delete and clear do nothing.

  /** upo_ht_sepchain_olist_put on a handle that may be NULL. */
  method Put<V>(ht: Table?<V>, k: int, v: V) returns (prev: Option<V>)
    requires ht != null ==> ht.Valid()
    requires ht != null && 0 < ht.buckets.Length ==> !SplicesAtHead(ht.buckets[ht.hash(k, ht.buckets.Length)], k)
    modifies ht, if ht == null then {} else {ht.buckets}
    ensures ht == null ==> prev == None
    ensures ht != null ==> ht.Valid() && ht.buckets == old(ht.buckets)
    ensures ht != null && 0 < ht.buckets.Length ==> ht.Contents() == old(ht.Contents())[k := v]
    ensures ht != null && AllAscending(old(ht.buckets[..])) ==>
              AllAscending(ht.buckets[..]) && prev == Lookup(old(ht.Contents()), k)
  {
    if ht == null {
      return None;
    }
    prev := ht.Put(k, v);
  }

  /** upo_ht_sepchain_olist_insert on a handle that may be NULL. */
  method Insert<V>(ht: Table?<V>, k: int, v: V)
    requires ht != null ==> ht.Valid() && 0 < ht.buckets.Length
    requires ht != null ==> !SplicesAtHead(ht.buckets[ht.hash(k, ht.buckets.Length)], k)
    modifies ht, if ht == null then {} else {ht.buckets}
    ensures ht != null ==> ht.Valid() && ht.buckets == old(ht.buckets)
    ensures ht != null && AllAscending(old(ht.buckets[..])) ==> AllAscending(ht.buckets[..])
    ensures ht != null && AllAscending(old(ht.buckets[..])) ==>
              ht.Contents() == if k in old(ht.Contents()) then old(ht.Contents()) else old(ht.Contents())[k := v]
  {
    if ht != null {
      ht.Insert(k, v);
    }
  }

  /** upo_ht_sepchain_olist_get on a handle that may be NULL. */
  method Get<V>(ht: Table?<V>, k: int) returns (r: Option<V>)
    requires ht != null ==> ht.Valid()
    ensures r == if ht == null then None else Lookup(ht.Contents(), k)
  {
    if ht == null {
      return None;
    }
    r := ht.Get(k);
  }

  /** upo_ht_sepchain_olist_contains on a handle that may be NULL. */
  method Contains<V>(ht: Table?<V>, k: int) returns (r: bool)
    requires ht != null ==> ht.Valid()
    ensures r <==> ht != null && k in ht.Contents()
  {
    if ht == null {
      return false;
    }
    r := ht.Contains(k);
  }

  /** upo_ht_sepchain_olist_delete on a handle that may be NULL. */
  method Delete<V>(ht: Table?<V>, k: int)
    requires ht != null ==> ht.Valid()
    modifies if ht == null then {} else {ht.buckets}
    ensures ht != null ==> ht.Valid()
    ensures ht != null && AllAscending(old(ht.buckets[..])) ==>
              AllAscending(ht.buckets[..]) && ht.Contents() == old(ht.Contents()) - {k}
  {
    if ht != null {
      ht.Delete(k);
    }
  }

  /** upo_ht_sepchain_olist_clear on a handle that may be NULL. */
  method Clear<V>(ht: Table?<V>)
    requires ht != null ==> ht.Valid()
    modifies ht, if ht == null then {} else {ht.buckets}
    ensures ht != null ==> ht.Valid() && ht.Contents() == map[] && ht.buckets == old(ht.buckets)
  {
    if ht != null {
      ht.Clear();
    }
  }

  /** upo_ht_sepchain_olist_size on a handle that may be NULL. */
  method Size<V>(ht: Table?<V>) returns (r: nat)
    requires ht != null ==> ht.Valid()
    ensures r == if ht == null then 0 else TotalLen(ht.buckets[..])
    ensures ht != null && AllAscending(ht.buckets[..]) ==> r == |ht.Contents()|
  {
    if ht == null {
      return 0;
    }
    r := ht.Size();
  }

  /** upo_ht_sepchain_olist_is_empty: its size is 0, so a NULL handle is empty. */
  method IsEmpty<V>(ht: Table?<V>) returns (r: bool)
    requires ht != null ==> ht.Valid()
    ensures r <==> ht == null || ht.Contents() == map[]
  {
    var n := Size(ht);
    if ht != null {
      TableMapEmptyIff(ht.buckets[..]);
    }
    r := n == 0;
  }
}

/**
 * Hash table with linear probing: the upo_ht_linprob_* functions of
 * src/hashtable.c.
 *
 * The table is an array of slots. A slot is never used (Empty), deleted
 * (Tomb: key NULL with the tombstone flag set) or holding a pair. Every
 * lookup starts at hash(key, capacity) and steps (i + 1) % capacity past
 * tombstones and slots holding other keys, stopping at the key or at an
 * Empty slot. The key comparator is modelled as equality of keys.
 */
module LinearProbing {
  import opened Common

  datatype Slot<K, V> = Empty | Tomb | Full(key: K, value: V)

  // ---------------------------------------------------------------------
  // Probe sequence arithmetic: h, h+1, ..., n-1, 0, 1, ... (mod n).

  /** The slot reached after `j` steps from `h` in a table of `n` slots. */
  function Probe(h: nat, j: nat, n: nat): (r: nat)
    requires h < n && j < n
    ensures r < n
  {
    if h + j < n then h + j else h + j - n
  }

  /** The number of steps from `h` to slot `i`. */
  function Dist(h: nat, i: nat, n: nat): (d: nat)
    requires h < n && i < n
    ensures d < n && Probe(h, d, n) == i
  {
    if h <= i then i - h else i + n - h
  }

  /** One probe step, written as the source writes it. */
  function NextSlot(i: nat, n: nat): (r: nat)
    requires i < n
    ensures r == if i + 1 < n then i + 1 else 0
  {
    (i + 1) % n
  }

  lemma DistProbe(h: nat, j: nat, n: nat)
    requires h < n && j < n
    ensures Dist(h, Probe(h, j, n), n) == j
  {
  }

  // ---------------------------------------------------------------------
  // The abstract view of a slot array.

  /** The key/value pairs held by the Full slots. */
  function MapOf<K, V>(s: seq<Slot<K, V>>): map<K, V>
  {
    if s == [] then map[]
    else
      var m := MapOf(s[..|s| - 1]);
      if s[|s| - 1].Full? then m[s[|s| - 1].key := s[|s| - 1].value] else m
  }

  /** The number of Full slots: what upo_ht_linprob_size counts. */
  function CountFull<K, V>(s: seq<Slot<K, V>>): nat
  {
    if s == [] then 0
    else CountFull(s[..|s| - 1]) + (if s[|s| - 1].Full? then 1 else 0)
  }

  /** The keys of the Full slots in slot order: what upo_ht_linprob_keys lists. */
  function KeysOf<K, V>(s: seq<Slot<K, V>>): seq<K>
  {
    if s == [] then []
    else KeysOf(s[..|s| - 1]) + (if s[|s| - 1].Full? then [s[|s| - 1].key] else [])
  }

  ghost predicate HasEmpty<K, V>(s: seq<Slot<K, V>>)
  {
    exists i :: 0 <= i < |s| && s[i].Empty?
  }

  ghost predicate NoTombs<K, V>(s: seq<Slot<K, V>>)
  {
    forall i :: 0 <= i < |s| ==> !s[i].Tomb?
  }

  ghost predicate KeysUnique<K, V>(s: seq<Slot<K, V>>)
  {
    forall i, j :: 0 <= i < j < |s| && s[i].Full? && s[j].Full? ==> s[i].key != s[j].key
  }

  /** No Empty slot lies on the probe path from `h` strictly before slot `i`. */
  ghost predicate PathClear<K, V>(s: seq<Slot<K, V>>, h: nat, i: nat)
    requires h < |s| && i < |s|
  {
    forall j :: 0 <= j < Dist(h, i, |s|) ==> !s[Probe(h, j, |s|)].Empty?
  }

  /** Slot `t` is the first slot on the probe path from `h` that holds no pair. */
  ghost predicate FirstFree<K, V>(s: seq<Slot<K, V>>, h: nat, t: nat)
    requires h < |s| && t < |s|
  {
    !s[t].Full? && forall j :: 0 <= j < Dist(h, t, |s|) ==> s[Probe(h, j, |s|)].Full?
  }

  /**
   * The table invariant: keys are unique and every pair is reachable
   * by probing from its hash.
   */
  ghost predicate WellFormed<K(!new), V>(s: seq<Slot<K, V>>, hash: (K, nat) -> nat)
    requires ValidHasher(hash)
  {
    KeysUnique(s) && forall i :: 0 <= i < |s| ==> Reachable(s, hash, i)
  }

  /** A pair in slot `i` can be found by probing from the hash of its key. */
  ghost predicate Reachable<K(!new), V>(s: seq<Slot<K, V>>, hash: (K, nat) -> nat, i: nat)
    requires ValidHasher(hash) && i < |s|
  {
    s[i].Full? ==> PathClear(s, hash(s[i].key, |s|), i)
  }

  /** A probe for `k` passes this slot without stopping. */
  predicate Passes<K(==), V>(x: Slot<K, V>, k: K)
  {
    x.Tomb? || (x.Full? && x.key != k)
  }

  // ---------------------------------------------------------------------
  // Lemmas about the abstract view.

  lemma {:induction false} MapOfAt<K, V>(s: seq<Slot<K, V>>, i: nat)
    requires KeysUnique(s) && i < |s| && s[i].Full?
    ensures s[i].key in MapOf(s) && MapOf(s)[s[i].key] == s[i].value
  {
    if i < |s| - 1 {
      MapOfAt(s[..|s| - 1], i);
    }
  }

  lemma {:induction false} MapOfIndex<K, V>(s: seq<Slot<K, V>>, k: K) returns (i: nat)
    requires k in MapOf(s)
    ensures i < |s| && s[i].Full? && s[i].key == k
  {
    var last := s[|s| - 1];
    if last.Full? && last.key == k {
      i := |s| - 1;
    } else {
      i := MapOfIndex(s[..|s| - 1], k);
    }
  }

  lemma MapOfAbsent<K, V>(s: seq<Slot<K, V>>, k: K)
    requires forall i :: 0 <= i < |s| && s[i].Full? ==> s[i].key != k
    ensures k !in MapOf(s)
  {
    if k in MapOf(s) {
      var i := MapOfIndex(s, k);
    }
  }

  /** A key held at slot `i` is not held by any earlier slot. */
  lemma MapOfFresh<K, V>(s: seq<Slot<K, V>>, i: nat)
    requires KeysUnique(s) && i < |s| && s[i].Full?
    ensures s[i].key !in MapOf(s[..i])
  {
    MapOfAbsent(s[..i], s[i].key);
  }

  /** Writing one slot removes the pair it held and adds the pair it now holds. */
  lemma MapOfUpdate<K, V>(s: seq<Slot<K, V>>, p: nat, x: Slot<K, V>)
    requires p < |s| && KeysUnique(s) && KeysUnique(s[p := x])
    ensures MapOf(s[p := x]) ==
            var dropped := if s[p].Full? then MapOf(s) - {s[p].key} else MapOf(s);
            if x.Full? then dropped[x.key := x.value] else dropped
  {
    var s' := s[p := x];
    var a := MapOf(s');
    var dropped := if s[p].Full? then MapOf(s) - {s[p].key} else MapOf(s);
    var b := if x.Full? then dropped[x.key := x.value] else dropped;
    forall k | k in a
      ensures k in b && a[k] == b[k]
    {
      var i := MapOfIndex(s', k);
      MapOfAt(s', i);
      if i != p {
        assert s'[i] == s[i] && s'[p] == x;
        MapOfAt(s, i);
        assert s[p].Full? ==> s[p].key != k;
      }
    }
    forall k | k in b
      ensures k in a
    {
      if x.Full? && x.key == k {
        MapOfAt(s', p);
      } else {
        var i := MapOfIndex(s, k);
        assert s'[i] == s[i];
        MapOfAt(s', i);
      }
    }
  }

  lemma {:induction false} CountFullIsSize<K, V>(s: seq<Slot<K, V>>)
    requires KeysUnique(s)
    ensures CountFull(s) == |MapOf(s)|
  {
    if s != [] {
      var p := s[..|s| - 1];
      CountFullIsSize(p);
      if s[|s| - 1].Full? {
        MapOfFresh(s, |s| - 1);
      }
    }
  }

  lemma {:induction false} CountFullPrefix<K, V>(s: seq<Slot<K, V>>, i: nat)
    requires i <= |s|
    ensures CountFull(s[..i]) <= CountFull(s)
    ensures i < |s| && s[i].Full? ==> CountFull(s[..i]) < CountFull(s)
    decreases |s| - i
  {
    if i < |s| {
      CountFullPrefix(s, i + 1);
      assert s[..i + 1][..i] == s[..i];
    } else {
      assert s[..i] == s;
    }
  }

  lemma {:induction false} KeysOfIsKeys<K, V>(s: seq<Slot<K, V>>)
    requires KeysUnique(s)
    ensures |KeysOf(s)| == |MapOf(s)|
    ensures forall k :: k in KeysOf(s) <==> k in MapOf(s)
  {
    if s != [] {
      KeysOfIsKeys(s[..|s| - 1]);
      CountFullIsSize(s[..|s| - 1]);
      if s[|s| - 1].Full? {
        MapOfFresh(s, |s| - 1);
      }
    }
  }

  /** Without tombstones, a slot array that is not full has an Empty slot. */
  lemma {:induction false} EmptyWhenNotFull<K, V>(s: seq<Slot<K, V>>)
    requires NoTombs(s) && CountFull(s) < |s|
    ensures HasEmpty(s)
  {
    var p := s[..|s| - 1];
    if s[|s| - 1].Full? {
      EmptyWhenNotFull(p);
      var i :| 0 <= i < |p| && p[i].Empty?;
      assert s[i] == p[i];
    } else {
      assert s[|s| - 1].Empty?;
    }
  }

  lemma {:induction false} CountFullBound<K, V>(s: seq<Slot<K, V>>)
    ensures CountFull(s) <= |s|
  {
    if s != [] {
      CountFullBound(s[..|s| - 1]);
    }
  }

  /**
   * Writing a non-Empty slot keeps the table well formed, provided a
   * written pair is reachable from its hash and its key is new elsewhere.
   */
  lemma WellFormedWrite<K(!new), V>(s: seq<Slot<K, V>>, hash: (K, nat) -> nat, t: nat, x: Slot<K, V>)
    requires ValidHasher(hash) && WellFormed(s, hash) && t < |s| && !x.Empty?
    requires x.Full? ==> PathClear(s, hash(x.key, |s|), t)
    requires x.Full? ==> forall i :: 0 <= i < |s| && i != t && s[i].Full? ==> s[i].key != x.key
    ensures WellFormed(s[t := x], hash)
  {
    var s' := s[t := x];
    var n := |s|;
    forall i | 0 <= i < n
      ensures Reachable(s', hash, i)
    {
      assert Reachable(s, hash, i);
      if s'[i].Full? {
        var h := hash(s'[i].key, n);
        forall j | 0 <= j < Dist(h, i, n)
          ensures !s'[Probe(h, j, n)].Empty?
        {
          if i == t {
            DistProbe(h, j, n);
          }
        }
      }
    }
  }

  // ---------------------------------------------------------------------
  // The probe loops, on any slot array (the table's own or the one a
  // resize is filling).

  /** The probe of get, contains and delete. */
  method FindSlot<K(==,!new), V>(a: array<Slot<K, V>>, hash: (K, nat) -> nat, k: K) returns (i: nat)
    requires ValidHasher(hash) && 0 < a.Length && WellFormed(a[..], hash)
    requires k in MapOf(a[..]) || HasEmpty(a[..])
    ensures i < a.Length && (a[i].Empty? || (a[i].Full? && a[i].key == k))
    ensures a[i].Full? <==> k in MapOf(a[..])
    ensures a[i].Full? ==> a[i].value == MapOf(a[..])[k]
  {
    var n := a.Length;
    var h := hash(k, n);
    ghost var stop: nat;
    if k in MapOf(a[..]) {
      stop := MapOfIndex(a[..], k);
    } else {
      stop :| 0 <= stop < n && a[stop].Empty?;
    }
    i := h;
    ghost var j := 0;
    while (a[i].Full? && a[i].key != k) || a[i].Tomb?
      invariant j <= Dist(h, stop, n) && i == Probe(h, j, n)
      invariant forall j' :: 0 <= j' < j ==> Passes(a[Probe(h, j', n)], k)
      decreases n - j
    {
      i := NextSlot(i, n);
      j := j + 1;
    }
    if a[i].Empty? {
      StopMeansAbsent(a[..], hash, k, j);
    } else {
      MapOfAt(a[..], i);
    }
  }

  /** A probe that stopped at an Empty slot after `j` steps proves the key absent. */
  lemma StopMeansAbsent<K(!new), V>(s: seq<Slot<K, V>>, hash: (K, nat) -> nat, k: K, j: nat)
    requires ValidHasher(hash) && 0 < |s| && WellFormed(s, hash)
    requires j < |s| && forall j' :: 0 <= j' < j ==> Passes(s[Probe(hash(k, |s|), j', |s|)], k)
    requires s[Probe(hash(k, |s|), j, |s|)].Empty?
    ensures k !in MapOf(s)
  {
    var n := |s|;
    var h := hash(k, n);
    forall p | 0 <= p < n && s[p].Full?
      ensures s[p].key != k
    {
      var d := Dist(h, p, n);
      assert Reachable(s, hash, p);
    }
    MapOfAbsent(s, k);
  }

  /**
   * The probe loop of put and insert from slot `h`: it passes tombstones and
   * other keys, remembering the first tombstone, and stops at the first
   * Empty slot or slot holding `k`; `stop` is such a slot.
   */
  method ProbeForInsert<K(==), V>(s: seq<Slot<K, V>>, h: nat, k: K, ghost stop: nat)
    returns (i: nat, ghost j: nat, target: nat)
    requires h < |s| && stop < |s| && !Passes(s[stop], k)
    ensures j <= Dist(h, stop, |s|) && i == Probe(h, j, |s|) && !Passes(s[i], k)
    ensures forall j' :: 0 <= j' < j ==> Passes(s[Probe(h, j', |s|)], k)
    ensures target < |s| && (!s[i].Full? ==> FirstFree(s, h, target))
  {
    var n := |s|;
    i := h;
    var hashTomb := 0;
    var foundTomb := false;
    j := 0;
    while (s[i].Full? && s[i].key != k) || s[i].Tomb?
      invariant j <= Dist(h, stop, n) && i == Probe(h, j, n)
      invariant forall j' :: 0 <= j' < j ==> Passes(s[Probe(h, j', n)], k)
      invariant foundTomb ==> hashTomb < n && Dist(h, hashTomb, n) < j && FirstFree(s, h, hashTomb)
      invariant !foundTomb ==> forall j' :: 0 <= j' < j ==> s[Probe(h, j', n)].Full?
      decreases n - j
    {
      if s[i].Tomb? && !foundTomb {
        foundTomb := true;
        hashTomb := i;
        DistProbe(h, j, n);
      }
      i := NextSlot(i, n);
      j := j + 1;
    }
    DistProbe(h, j, n);
    target := if foundTomb then hashTomb else i;
  }

  /**
   * The probe of put and insert: where it stops, and `target`, the first
   * slot on the path holding no pair (the first tombstone passed, else the
   * Empty slot it stopped at).
   */
  method FindForInsert<K(==,!new), V>(a: array<Slot<K, V>>, hash: (K, nat) -> nat, k: K)
    returns (i: nat, target: nat)
    requires ValidHasher(hash) && 0 < a.Length && WellFormed(a[..], hash)
    requires k in MapOf(a[..]) || HasEmpty(a[..])
    ensures i < a.Length && target < a.Length
    ensures a[i].Empty? || (a[i].Full? && a[i].key == k)
    ensures a[i].Full? <==> k in MapOf(a[..])
    ensures a[i].Full? ==> a[i].value == MapOf(a[..])[k]
    ensures !a[i].Full? ==> FirstFree(a[..], hash(k, a.Length), target)
  {
    var n := a.Length;
    var h := hash(k, n);
    ghost var stop: nat;
    if k in MapOf(a[..]) {
      stop := MapOfIndex(a[..], k);
    } else {
      stop :| 0 <= stop < n && a[stop].Empty?;
    }
    ghost var j;
    i, j, target := ProbeForInsert(a[..], h, k, stop);
    if a[i].Empty? {
      StopMeansAbsent(a[..], hash, k, j);
    } else {
      MapOfAt(a[..], i);
    }
  }

  /**
   * The loop of upo_ht_linprob_resize: every pair of the old slots is put
   * into a fresh all-Empty array of `n` slots. Each of those puts runs the
   * growth test of upo_ht_linprob_put on the new table first, and doubles
   * it by the same rebuild when it is at least half full. When the old slots
   * hold at most n / 2 + 1 pairs, as at both callers, that never fires and
   * the capacity stays `n`.
   */
  method Rehash<K(==,!new), V>(s: seq<Slot<K, V>>, hash: (K, nat) -> nat, n: nat)
    returns (fr: array<Slot<K, V>>, count: nat)
    requires ValidHasher(hash) && KeysUnique(s) && 0 < n
    ensures fresh(fr) && n <= fr.Length
    ensures 2 * CountFull(s) < n + 2 ==> fr.Length == n
    ensures WellFormed(fr[..], hash) && NoTombs(fr[..])
    ensures MapOf(fr[..]) == MapOf(s) && count == CountFull(s)
    decreases CountFull(s), 1
  {
    fr := new Slot<K, V>[n](_ => Empty);
    MapOfAbsentAll(fr[..]);
    count := 0;
    for i := 0 to |s|
      invariant fresh(fr) && n <= fr.Length
      invariant 2 * CountFull(s) < n + 2 ==> fr.Length == n
      invariant WellFormed(fr[..], hash) && NoTombs(fr[..])
      invariant MapOf(fr[..]) == MapOf(s[..i])
      invariant count == |MapOf(fr[..])| == CountFull(s[..i])
    {
      assert s[..i + 1][..i] == s[..i];
      if s[i].Full? {
        CountFullIsSize(s[..i]);
        CountFullPrefix(s, i);
        CountFullIsSize(fr[..]);
        MapOfFresh(s, i);
        fr, count := RehashPut(fr, hash, count, s[i].key, s[i].value);
      }
    }
    assert s[..|s|] == s;
  }

  /**
   * One put of the resize loop into the new table `fr`, which holds `count`
   * pairs and not `k`: the growth test first, then the store into an Empty slot.
   */
  method RehashPut<K(==,!new), V>(fr: array<Slot<K, V>>, hash: (K, nat) -> nat, count: nat, k: K, v: V)
    returns (fr': array<Slot<K, V>>, count': nat)
    requires ValidHasher(hash) && 0 < fr.Length && WellFormed(fr[..], hash) && NoTombs(fr[..])
    requires count == CountFull(fr[..]) && k !in MapOf(fr[..])
    modifies fr
    ensures fr' == fr || fresh(fr')
    ensures fr.Length <= fr'.Length && (2 * count < fr.Length ==> fr' == fr)
    ensures WellFormed(fr'[..], hash) && NoTombs(fr'[..])
    ensures MapOf(fr'[..]) == old(MapOf(fr[..]))[k := v] && count' == count + 1
    decreases count + 1, 0
  {
    fr' := fr;
    count' := count;
    if 2 * count >= fr.Length {
      CountFullBound(fr[..]);
      fr', count' := Rehash(fr[..], hash, 2 * fr.Length);
      assert fr'.Length == 2 * fr.Length;
      CountFullIsSize(fr[..]);
      CountFullIsSize(fr'[..]);
    }
    assert CountFull(fr'[..]) == count' < fr'.Length;
    EmptyWhenNotFull(fr'[..]);
    var prev := PutInArray(fr', hash, k, v);
    count' := count' + 1;
  }

  /**
   * The lookup-and-store part of upo_ht_linprob_put, after its growth
   * test: overwrite the value of a present key, otherwise place the pair in
   * the first tombstone passed or else in the Empty slot that ended the probe.
   */
  method PutInArray<K(==,!new), V>(a: array<Slot<K, V>>, hash: (K, nat) -> nat, k: K, v: V)
    returns (prev: Option<V>)
    requires ValidHasher(hash) && 0 < a.Length && WellFormed(a[..], hash)
    requires k in MapOf(a[..]) || HasEmpty(a[..])
    modifies a
    ensures WellFormed(a[..], hash)
    ensures MapOf(a[..]) == old(MapOf(a[..]))[k := v]
    ensures prev == Lookup(old(MapOf(a[..])), k)
    ensures NoTombs(old(a[..])) ==> NoTombs(a[..])
    ensures prev.None? ==>
              exists t :: 0 <= t < a.Length && FirstFree(old(a[..]), hash(k, a.Length), t)
                          && a[..] == old(a[..])[t := Full(k, v)]
    ensures prev.Some? ==>
              exists t :: 0 <= t < a.Length && old(a[t]) == Full(k, prev.value)
                          && a[..] == old(a[..])[t := Full(k, v)]
  {
    var i, target := FindForInsert(a, hash, k);
    ghost var s := a[..];
    if !a[i].Full? {
      WellFormedFirstFree(s, hash, k, v, target);
      a[target] := Full(k, v);
      prev := None;
      MapOfUpdate(s, target, Full(k, v));
      assert a[..] == s[target := Full(k, v)];
    } else {
      prev := Some(a[i].value);
      assert Reachable(s, hash, i);
      WellFormedWrite(s, hash, i, Full(k, v));
      MapOfUpdate(s, i, Full(k, v));
      a[i] := Full(a[i].key, v);
      assert a[..] == s[i := Full(k, v)];
    }
  }

  /** Placing a new key at the first free slot of its probe path keeps the table well formed. */
  lemma WellFormedFirstFree<K(!new), V>(s: seq<Slot<K, V>>, hash: (K, nat) -> nat, k: K, v: V, t: nat)
    requires ValidHasher(hash) && 0 < |s| && WellFormed(s, hash) && k !in MapOf(s)
    requires t < |s| && FirstFree(s, hash(k, |s|), t)
    ensures WellFormed(s[t := Full(k, v)], hash) && KeysUnique(s[t := Full(k, v)])
  {
    forall i | 0 <= i < |s| && i != t && s[i].Full?
      ensures s[i].key != k
    {
      MapOfAt(s, i);
    }
    WellFormedWrite(s, hash, t, Full(k, v));
  }

  // ---------------------------------------------------------------------

  /** A linear-probing table (struct upo_ht_linprob_s). */
  class Table<K(==,!new), V> {
    /** The slot array; its length is the capacity. */
    var slots: array<Slot<K, V>>
    /** The stored size field: maintained as the source does, never read by it. */
    var size: int
    /** The hasher given at creation. */
    const hash: (K, nat) -> nat

    ghost predicate Valid()
      reads this, slots
    {
      ValidHasher(hash) && WellFormed(slots[..], hash)
    }

    /** The key/value pairs the table holds. */
    ghost function Contents(): map<K, V>
      reads this, slots
    {
      MapOf(slots[..])
    }

    function Capacity(): nat
      reads this
    {
      slots.Length
    }

    /** upo_ht_linprob_create: `m` Empty slots, stored size 0. */
    constructor (m: nat, hash: (K, nat) -> nat)
      requires ValidHasher(hash)
      ensures Valid() && fresh(slots) && slots.Length == m && this.hash == hash
      ensures Contents() == map[] && NoTombs(slots[..]) && size == 0
    {
      slots := new Slot<K, V>[m](_ => Empty);
      size := 0;
      this.hash := hash;
      new;
      MapOfAbsentAll(slots[..]);
    }

    /** upo_ht_linprob_size: rescans the slots and counts the pairs. */
    method Size() returns (r: nat)
      requires Valid()
      ensures r == |Contents()|
    {
      r := 0;
      for i := 0 to slots.Length
        invariant r == CountFull(slots[..i])
      {
        assert slots[..i + 1][..i] == slots[..i];
        if slots[i].Full? {
          r := r + 1;
        }
      }
      assert slots[..slots.Length] == slots[..];
      CountFullIsSize(slots[..]);
    }

    /** upo_ht_linprob_is_empty. */
    method IsEmpty() returns (r: bool)
      requires Valid()
      ensures r <==> Contents() == map[]
    {
      var n := Size();
      r := n == 0;
    }

    /** upo_ht_linprob_get: the value of `k`, or NULL. */
    method Get(k: K) returns (r: Option<V>)
      requires Valid() && 0 < slots.Length
      requires k in Contents() || HasEmpty(slots[..])
      ensures r == Lookup(Contents(), k)
    {
      var i := FindSlot(slots, hash, k);
      if slots[i].Full? {
        r := Some(slots[i].value);
      } else {
        r := None;
      }
    }

    /** upo_ht_linprob_contains. */
    method Contains(k: K) returns (r: bool)
      requires Valid() && 0 < slots.Length
      requires k in Contents() || HasEmpty(slots[..])
      ensures r <==> k in Contents()
    {
      var i := FindSlot(slots, hash, k);
      r := slots[i].Full?;
    }

    /**
     * upo_ht_linprob_resize: rebuild into `n` fresh slots by putting every
     * pair, then take over the new slots, capacity and size. The capacity is
     * exactly `n` unless the pairs fill half of it, when the nested puts grow
     * it further; the two callers (put doubling, delete halving) stay below.
     */
    method Resize(n: nat)
      requires Valid() && 0 < n
      modifies this
      ensures Valid() && fresh(slots) && n <= slots.Length
      ensures 2 * |old(Contents())| < n + 2 ==> slots.Length == n
      ensures Contents() == old(Contents()) && NoTombs(slots[..])
      ensures size == |Contents()|
    {
      CountFullIsSize(slots[..]);
      var fr, count := Rehash(slots[..], hash, n);
      slots := fr;
      size := count;
    }

    /**
     * upo_ht_linprob_put: double the capacity first when the load factor is at
     * least 1/2, then store the pair; returns the previous value or NULL.
     */
    method Put(k: K, v: V) returns (prev: Option<V>)
      requires Valid() && 0 < slots.Length
      requires 2 * |Contents()| >= slots.Length || HasEmpty(slots[..]) || k in Contents()
      modifies this, slots
      ensures Valid() && Contents() == old(Contents())[k := v]
      ensures prev == Lookup(old(Contents()), k)
      ensures slots.Length == if 2 * |old(Contents())| >= old(slots.Length) then 2 * old(slots.Length) else old(slots.Length)
      ensures size == (if 2 * |old(Contents())| >= old(slots.Length) then |old(Contents())| else old(size))
                      + (if prev.None? then 1 else 0)
      ensures NoTombs(old(slots[..])) ==> NoTombs(slots[..])
      ensures slots == old(slots) || fresh(slots)
      ensures 2 * |old(Contents())| < old(slots.Length) ==> slots == old(slots)
      ensures 2 * |old(Contents())| < old(slots.Length) && prev.None? ==>
                exists t :: 0 <= t < slots.Length && FirstFree(old(slots[..]), hash(k, slots.Length), t)
                            && slots[..] == old(slots[..])[t := Full(k, v)]
      ensures 2 * |old(Contents())| < old(slots.Length) && prev.Some? ==>
                exists t :: 0 <= t < slots.Length && old(slots[..])[t] == Full(k, prev.value)
                            && slots[..] == old(slots[..])[t := Full(k, v)]
    {
      var live := Size();
      if 2 * live >= slots.Length {
        CountFullIsSize(slots[..]);
        CountFullBound(slots[..]);
        Resize(slots.Length * 2);
        CountFullIsSize(slots[..]);
        EmptyWhenNotFull(slots[..]);
      }
      prev := PutInArray(slots, hash, k, v);
      if prev.None? {
        size := size + 1;
      }
    }

    /**
     * upo_ht_linprob_insert: like put, growth test included, but a present
     * key keeps its value.
     */
    method Insert(k: K, v: V)
      requires Valid() && 0 < slots.Length
      requires 2 * |Contents()| >= slots.Length || HasEmpty(slots[..]) || k in Contents()
      modifies this, slots
      ensures Valid()
      ensures Contents() == if k in old(Contents()) then old(Contents()) else old(Contents())[k := v]
      ensures slots.Length == if 2 * |old(Contents())| >= old(slots.Length) then 2 * old(slots.Length) else old(slots.Length)
      ensures size == (if 2 * |old(Contents())| >= old(slots.Length) then |old(Contents())| else old(size))
                      + (if k in old(Contents()) then 0 else 1)
      ensures NoTombs(old(slots[..])) ==> NoTombs(slots[..])
      ensures slots == old(slots) || fresh(slots)
      ensures 2 * |old(Contents())| < old(slots.Length) ==> slots == old(slots)
      ensures 2 * |old(Contents())| < old(slots.Length) && k in old(Contents()) ==> slots[..] == old(slots[..])
      ensures 2 * |old(Contents())| < old(slots.Length) && k !in old(Contents()) ==>
                exists t :: 0 <= t < slots.Length && FirstFree(old(slots[..]), hash(k, slots.Length), t)
                            && slots[..] == old(slots[..])[t := Full(k, v)]
    {
      var live := Size();
      if 2 * live >= slots.Length {
        CountFullIsSize(slots[..]);
        CountFullBound(slots[..]);
        Resize(slots.Length * 2);
        CountFullIsSize(slots[..]);
        EmptyWhenNotFull(slots[..]);
      }
      var i, target := FindForInsert(slots, hash, k);
      if !slots[i].Full? {
        ghost var s := slots[..];
        WellFormedFirstFree(s, hash, k, v, target);
        MapOfUpdate(s, target, Full(k, v));
        slots[target] := Full(k, v);
        assert slots[..] == s[target := Full(k, v)];
        size := size + 1;
      }
    }

    /**
     * upo_ht_linprob_delete: turn the key's slot into a tombstone, halve the
     * capacity when at most 1/8 of it is still used, then decrement the stored
     * size (after the resize has replaced it). An absent key changes nothing.
     */
    method Delete(k: K)
      requires Valid() && 0 < slots.Length
      requires k in Contents() || HasEmpty(slots[..])
      requires k in Contents() ==> 1 < slots.Length
      modifies this, slots
      ensures Valid() && Contents() == old(Contents()) - {k}
      ensures k !in old(Contents()) ==> slots == old(slots) && slots[..] == old(slots[..]) && size == old(size)
      ensures k in old(Contents()) && 8 * |Contents()| <= old(slots.Length) ==>
                slots.Length == old(slots.Length) / 2 && NoTombs(slots[..]) && size == |Contents()| - 1
      ensures k in old(Contents()) && 8 * |Contents()| > old(slots.Length) ==>
                slots == old(slots) && size == old(size) - 1
                && exists i :: 0 <= i < |old(slots[..])| && old(slots[..])[i] == Full(k, old(Contents())[k])
                                && slots[..] == old(slots[..])[i := Tomb]
    {
      var i := FindSlot(slots, hash, k);
      if slots[i].Full? {
        ghost var s := slots[..];
        WellFormedWrite(s, hash, i, Tomb);
        MapOfUpdate(s, i, Tomb);
        slots[i] := Tomb;
        assert slots[..] == s[i := Tomb];
        var live := Size();
        if 8 * live <= slots.Length {
          CountFullIsSize(slots[..]);
          Resize(slots.Length / 2);
        }
        size := size - 1;
      }
    }

    /**
     * upo_ht_linprob_clear: empty every slot holding a pair; tombstones stay.
     */
    method Clear()
      requires Valid()
      modifies this, slots
      ensures Valid() && Contents() == map[] && slots == old(slots) && size == 0
      ensures forall i :: 0 <= i < slots.Length ==>
                slots[i] == if old(slots[i]).Full? then Empty else old(slots[i])
    {
      for i := 0 to slots.Length
        invariant slots == old(slots)
        invariant forall j :: 0 <= j < i ==> slots[j] == if old(slots[j]).Full? then Empty else old(slots[j])
        invariant forall j :: i <= j < slots.Length ==> slots[j] == old(slots[j])
      {
        if slots[i].Full? {
          slots[i] := Empty;
        }
      }
      size := 0;
      MapOfAbsentAll(slots[..]);
    }

    /** upo_ht_linprob_keys: the keys in slot order, each once. */
    method Keys() returns (keys: seq<K>)
      requires Valid()
      ensures keys == KeysOf(slots[..])
      ensures |keys| == |Contents()| && forall k :: k in keys <==> k in Contents()
    {
      keys := [];
      for i := 0 to slots.Length
        invariant keys == KeysOf(slots[..i])
      {
        assert slots[..i + 1][..i] == slots[..i];
        if slots[i].Full? {
          keys := keys + [slots[i].key];
        }
      }
      assert slots[..slots.Length] == slots[..];
      KeysOfIsKeys(slots[..]);
    }

    /**
     * upo_ht_linprob_merge: insert every pair of `src`; keys already in
     * this table keep their values, and `src` is left unchanged. Merging a
     * table into itself re-inserts its own pairs and keeps its contents.
     * A destination without slots is only hashed into when `src` has a key.
     */
    method Merge(src: Table<K, V>)
      requires Valid() && src.Valid() && (0 < slots.Length || |src.Contents()| == 0)
      requires src != this ==> src.slots != slots && NoTombs(slots[..])
      modifies this, slots
      ensures Valid() && Contents() == old(src.Contents()) + old(Contents())
      ensures src != this ==> src.slots[..] == old(src.slots[..])
    {
      if src == this {
        ReinsertAll();
        assert Contents() == Contents() + Contents();
      } else {
        MergeFrom(src);
      }
    }

    /** The loop of upo_ht_linprob_merge over a distinct source table. */
    method MergeFrom(src: Table<K, V>)
      requires Valid() && src.Valid() && src != this && src.slots != slots
      requires (0 < slots.Length || |src.Contents()| == 0) && NoTombs(slots[..])
      modifies this, slots
      ensures Valid() && Contents() == old(src.Contents()) + old(Contents())
      ensures src.slots[..] == old(src.slots[..])
    {
      ghost var d := Contents();
      ghost var ss := src.slots[..];
      for i := 0 to src.slots.Length
        invariant Valid() && (0 < slots.Length || |MapOf(ss)| == 0) && NoTombs(slots[..])
        invariant slots == old(slots) || fresh(slots)
        invariant src.slots != slots && src.slots[..] == ss
        invariant Contents() == MapOf(ss[..i]) + d
      {
        assert ss[..i + 1][..i] == ss[..i];
        if src.slots[i].Full? {
          var k, v := src.slots[i].key, src.slots[i].value;
          MapOfFresh(ss, i);
          MapOfAt(ss, i);
          MergeStep(MapOf(ss[..i]), d, k, v);
          CanInsert(slots[..]);
          Insert(k, v);
        }
      }
      assert ss[..src.slots.Length] == ss;
    }

    /**
     * The loop of upo_ht_linprob_merge when source and destination are the
     * same table: it walks the slots, re-reading the capacity after every
     * insert, and inserts each key it finds. Every key is already present,
     * so only the growth test of the insert changes anything, and it fires
     * at most while the table is at least half full.
     */
    method ReinsertAll()
      requires Valid()
      modifies this, slots
      ensures Valid() && Contents() == old(Contents())
      ensures slots == old(slots) || fresh(slots)
      ensures old(slots.Length) <= slots.Length
    {
      ghost var c := Contents();
      ghost var bound := if slots.Length < 4 * |c| then 4 * |c| else slots.Length;
      var i := 0;
      while i < slots.Length
        invariant Valid() && old(slots.Length) <= slots.Length <= bound && Contents() == c
        invariant slots == old(slots) || fresh(slots)
        decreases bound - slots.Length, slots.Length - i
      {
        if slots[i].Full? {
          var k, v := slots[i].key, slots[i].value;
          MapOfAt(slots[..], i);
          Insert(k, v);
        }
        i := i + 1;
      }
    }
  }

  /** Inserting a key the merged part lacks adds it unless the destination already had it. */
  lemma MergeStep<K, V>(m: map<K, V>, d: map<K, V>, k: K, v: V)
    requires k !in m
    ensures (if k in m + d then m + d else (m + d)[k := v]) == m[k := v] + d
  {
  }

  /** Without tombstones the growth test of put guarantees a probe stops. */
  lemma CanInsert<K, V>(s: seq<Slot<K, V>>)
    requires NoTombs(s) && KeysUnique(s)
    ensures 2 * |MapOf(s)| >= |s| || HasEmpty(s)
  {
    CountFullIsSize(s);
    if 2 * |MapOf(s)| < |s| {
      EmptyWhenNotFull(s);
    }
  }

  lemma MapOfAbsentAll<K, V>(s: seq<Slot<K, V>>)
    requires forall i :: 0 <= i < |s| ==> !s[i].Full?
    ensures MapOf(s) == map[]
  {
    if s != [] {
      MapOfAbsentAll(s[..|s| - 1]);
    }
  }

  // ---------------------------------------------------------------------
  // The functions of the interface take a table handle that may be NULL:
  // then put and get give NULL, contains 0, size 0, is_empty 1 and keys
  // the empty list, while insert, delete, clear and a merge with either
  // side NULL do nothing.

  /** upo_ht_linprob_put on a handle that may be NULL. */
  method Put<K(==,!new), V>(ht: Table?<K, V>, k: K, v: V) returns (prev: Option<V>)
    requires ht != null ==> ht.Valid() && 0 < ht.slots.Length
    requires ht != null ==> 2 * |ht.Contents()| >= ht.slots.Length || HasEmpty(ht.slots[..]) || k in ht.Contents()
    modifies ht, if ht == null then {} else {ht.slots}
    ensures ht == null ==> prev == None
    ensures ht != null ==> ht.Valid() && ht.Contents() == old(ht.Contents())[k := v]
    ensures ht != null ==> prev == Lookup(old(ht.Contents()), k)
  {
    if ht == null {
      return None;
    }
    prev := ht.Put(k, v);
  }

  /** upo_ht_linprob_insert on a handle that may be NULL. */
  method Insert<K(==,!new), V>(ht: Table?<K, V>, k: K, v: V)
    requires ht != null ==> ht.Valid() && 0 < ht.slots.Length
    requires ht != null ==> 2 * |ht.Contents()| >= ht.slots.Length || HasEmpty(ht.slots[..]) || k in ht.Contents()
    modifies ht, if ht == null then {} else {ht.slots}
    ensures ht != null ==> ht.Valid()
    ensures ht != null ==>
              ht.Contents() == if k in old(ht.Contents()) then old(ht.Contents()) else old(ht.Contents())[k := v]
  {
    if ht != null {
      ht.Insert(k, v);
    }
  }

  /** upo_ht_linprob_get on a handle that may be NULL. */
  method Get<K(==,!new), V>(ht: Table?<K, V>, k: K) returns (r: Option<V>)
    requires ht != null ==> ht.Valid() && 0 < ht.slots.Length
    requires ht != null ==> k in ht.Contents() || HasEmpty(ht.slots[..])
    ensures r == if ht == null then None else Lookup(ht.Contents(), k)
  {
    if ht == null {
      return None;
    }
    r := ht.Get(k);
  }

  /** upo_ht_linprob_contains on a handle that may be NULL. */
  method Contains<K(==,!new), V>(ht: Table?<K, V>, k: K) returns (r: bool)
    requires ht != null ==> ht.Valid() && 0 < ht.slots.Length
    requires ht != null ==> k in ht.Contents() || HasEmpty(ht.slots[..])
    ensures r <==> ht != null && k in ht.Contents()
  {
    if ht == null {
      return false;
    }
    r := ht.Contains(k);
  }

  /** upo_ht_linprob_delete on a handle that may be NULL. */
  method Delete<K(==,!new), V>(ht: Table?<K, V>, k: K)
    requires ht != null ==> ht.Valid() && 0 < ht.slots.Length
    requires ht != null ==> k in ht.Contents() || HasEmpty(ht.slots[..])
    requires ht != null && k in ht.Contents() ==> 1 < ht.slots.Length
    modifies ht, if ht == null then {} else {ht.slots}
    ensures ht != null ==> ht.Valid() && ht.Contents() == old(ht.Contents()) - {k}
  {
    if ht != null {
      ht.Delete(k);
    }
  }

  /** upo_ht_linprob_clear on a handle that may be NULL. */
  method Clear<K(==,!new), V>(ht: Table?<K, V>)
    requires ht != null ==> ht.Valid()
    modifies ht, if ht == null then {} else {ht.slots}
    ensures ht != null ==> ht.Valid() && ht.Contents() == map[] && ht.slots == old(ht.slots)
  {
    if ht != null {
      ht.Clear();
    }
  }

  /** upo_ht_linprob_size on a handle that may be NULL. */
  method Size<K(==,!new), V>(ht: Table?<K, V>) returns (r: nat)
    requires ht != null ==> ht.Valid()
    ensures r == if ht == null then 0 else |ht.Contents()|
  {
    if ht == null {
      return 0;
    }
    r := ht.Size();
  }

  /** upo_ht_linprob_is_empty: its size is 0, so a NULL handle is empty. */
  method IsEmpty<K(==,!new), V>(ht: Table?<K, V>) returns (r: bool)
    requires ht != null ==> ht.Valid()
    ensures r <==> ht == null || ht.Contents() == map[]
  {
    var n := Size(ht);
    r := n == 0;
  }

  /** upo_ht_linprob_keys on a handle that may be NULL. */
  method Keys<K(==,!new), V>(ht: Table?<K, V>) returns (keys: seq<K>)
    requires ht != null ==> ht.Valid()
    ensures ht == null ==> keys == []
    ensures ht != null ==> keys == KeysOf(ht.slots[..])
    ensures ht != null ==> forall k :: k in keys <==> k in ht.Contents()
  {
    if ht == null {
      return [];
    }
    keys := ht.Keys();
  }

  /** upo_ht_linprob_merge: nothing happens when either handle is NULL. */
  method Merge<K(==,!new), V>(dest: Table?<K, V>, src: Table?<K, V>)
    requires dest != null ==> dest.Valid()
    requires dest != null && src != null ==> 0 < dest.slots.Length || |src.Contents()| == 0
    requires dest != null && src != null && src != dest ==> NoTombs(dest.slots[..])
    requires src != null ==> src.Valid()
    requires dest != null && src != null && src != dest ==> src.slots != dest.slots
    modifies dest, if dest == null then {} else {dest.slots}
    ensures dest != null ==> dest.Valid()
    ensures dest != null && src == null ==> dest.Contents() == old(dest.Contents())
    ensures dest != null && src != null ==> dest.Contents() == old(src.Contents()) + old(dest.Contents())
  {
    if dest != null && src != null {
      dest.Merge(src);
    }
  }
}

/**
 * The hash functions of src/hashtable.c: the division hash for ints and
 * the string hashes that fold h := (a * h + c) mod m over the characters.
 *
 * The source computes in size_t; the wrap-around at 2^64 is written out.
 * A character is taken by its code point, which is what a 7-bit `char`
 * promotes to.
 */
module Hashing {
  import opened Common

  /** The number of size_t values. */
  const WORD: int := 0x1_0000_0000_0000_0000

  /**
   * upo_ht_hash_int_div: the int is converted to size_t (a negative int
   * wraps to x + 2^64) and reduced modulo m.
   */
  function IntDiv(x: int, m: nat): (r: nat)
    requires 0 < m
    ensures r < m
    ensures 0 <= x < WORD ==> r == x % m
    ensures -WORD <= x < 0 ==> r == (x + WORD) % m
  {
    assert 0 <= x < WORD ==> x % WORD == x;
    assert -WORD <= x < 0 ==> x % WORD == x + WORD;
    (x % WORD) % m
  }

  /** One step of upo_ht_hash_str: (a * h + c) mod m, in size_t. */
  function StrStep(h: nat, a: nat, c: char, m: nat): (r: nat)
    requires 0 < m
    ensures r < m
  {
    ((a * h + c as int) % WORD) % m
  }

  /** The value upo_ht_hash_str computes: the step folded from h0 over `s`. */
  function StrFold(s: string, h0: nat, a: nat, m: nat): (r: nat)
    requires 0 < m
    ensures h0 < m || |s| > 0 ==> r < m
  {
    if s == [] then h0 else StrStep(StrFold(s[..|s| - 1], h0, a, m), a, s[|s| - 1], m)
  }

  /** Hashing `s + t` resumes from the hash of `s`, so the hash is computed incrementally. */
  lemma {:induction false} StrFoldAppend(s: string, t: string, h0: nat, a: nat, m: nat)
    requires 0 < m
    ensures StrFold(s + t, h0, a, m) == StrFold(t, StrFold(s, h0, a, m), a, m)
  {
    if t == [] {
      assert s + t == s;
    } else {
      StrFoldAppend(s, t[..|t| - 1], h0, a, m);
      assert (s + t)[..|s + t| - 1] == s + t[..|t| - 1];
    }
  }

  /** upo_ht_hash_str: the loop over the characters of `s`. */
  method HashStr(s: string, h0: nat, a: nat, m: nat) returns (h: nat)
    requires 0 < m && h0 < m
    ensures h == StrFold(s, h0, a, m) && h < m
  {
    h := h0;
    for i := 0 to |s|
      invariant h == StrFold(s[..i], h0, a, m)
    {
      assert s[..i + 1][..i] == s[..i];
      h := (a * h + s[i] as int) % WORD % m;
    }
    assert s[..|s|] == s;
  }

  /** upo_ht_hash_str_djb2: h0 = 5381, a = 33; h0 < m is asserted, so m > 5381. */
  method Djb2(s: string, m: nat) returns (h: nat)
    requires 5381 < m
    ensures h == StrFold(s, 5381, 33, m) && h < m
  {
    h := HashStr(s, 5381, 33, m);
  }

  /** upo_ht_hash_str_java: h0 = 0, a = 31. */
  method Java(s: string, m: nat) returns (h: nat)
    requires 0 < m
    ensures h == StrFold(s, 0, 31, m) && h < m
  {
    h := HashStr(s, 0, 31, m);
  }

  /**
   * upo_ht_hash_str_kr2e: h0 = 0, a = 31. The source writes the same fold as
   * upo_ht_hash_str_java a second time under the K&R name; it is kept here as
   * its own member so that each hash of the source has one.
   */
  method Kr2e(s: string, m: nat) returns (h: nat)
    requires 0 < m
    ensures h == StrFold(s, 0, 31, m) && h < m
  {
    h := HashStr(s, 0, 31, m);
  }

  /** upo_ht_hash_str_sgistl: h0 = 0, a = 5. */
  method Sgistl(s: string, m: nat) returns (h: nat)
    requires 0 < m
    ensures h == StrFold(s, 0, 5, m) && h < m
  {
    h := HashStr(s, 0, 5, m);
  }

  /** upo_ht_hash_str_stlport: h0 = 0, a = 33. */
  method Stlport(s: string, m: nat) returns (h: nat)
    requires 0 < m
    ensures h == StrFold(s, 0, 33, m) && h < m
  {
    h := HashStr(s, 0, 33, m);
  }

  /** One step of upo_ht_hash_str_djb2a: (33 * h xor c) mod m, in size_t. */
  function Djb2aStep(h: nat, c: char, m: nat): (r: nat)
    requires 0 < m
    ensures r < m
  {
    Xor64((33 * h) % WORD, c as int) % m
  }

  /** The size_t exclusive or. */
  function Xor64(x: nat, y: nat): (r: nat)
    requires x < WORD && y < WORD
    ensures r < WORD
  {
    (x as bv64 ^ y as bv64) as int
  }

  /** The value upo_ht_hash_str_djb2a computes. */
  function Djb2aFold(s: string, m: nat): (r: nat)
    requires 0 < m
    ensures s == [] ==> r == 5381
    ensures s != [] ==> r < m
  {
    if s == [] then 5381 else Djb2aStep(Djb2aFold(s[..|s| - 1], m), s[|s| - 1], m)
  }

  /** The fold over one more character takes one more step. */
  lemma Djb2aFoldNext(s: string, i: nat, m: nat)
    requires 0 < m && i < |s|
    ensures Djb2aFold(s[..i + 1], m) == Djb2aStep(Djb2aFold(s[..i], m), s[i], m)
  {
    assert s[..i + 1][..i] == s[..i];
  }

  /**
   * upo_ht_hash_str_djb2a. Nothing reduces the initial 5381, so the empty
   * string hashes to 5381 whatever m is.
   */
  method Djb2a(s: string, m: nat) returns (h: nat)
    requires 0 < m
    ensures h == Djb2aFold(s, m)
    ensures s == [] ==> h == 5381
    ensures s != [] ==> h < m
  {
    h := 5381;
    for i := 0 to |s|
      invariant h == Djb2aFold(s[..i], m)
    {
      Djb2aFoldNext(s, i, m);
      h := Xor64((33 * h) % WORD, s[i] as int) % m;
    }
    assert s[..|s|] == s;
  }

  /** The division hash as a table hasher. */
  function IntDivHasher(): (hash: (int, nat) -> nat)
    ensures ValidHasher(hash)
  {
    (x: int, m: nat) => if 0 < m then IntDiv(x, m) else 0
  }

  /** The kr2e string hash as a table hasher. */
  function Kr2eHasher(): (hash: (string, nat) -> nat)
    ensures ValidHasher(hash)
  {
    (s: string, m: nat) => if 0 < m then StrFold(s, 0, 31, m) else 0
  }
}

/**
 * The generic binary search of
 * intro-exercises/cptrs-ex02-binary_search/binary_search.c and its two
 * comparators.
 *
 * The array of `num_elem` elements of `elem_size` bytes is an `array<T>`,
 * and the address of element `mid` that the source returns is `Some(mid)`;
 * NULL is `None`. The comparator is a function value `cmp(key, elem)`.
 */
module BinarySearch {
  import opened Common

  /**
   * What the search needs of the array, as for the library's own bsearch:
   * the elements below the key come before those equal to it, which come
   * before those above it.
   */
  ghost predicate PartitionedFor<T(!new)>(s: seq<T>, key: T, cmp: (T, T) -> int)
  {
    forall i, j :: 0 <= i < j < |s| ==>
      (cmp(key, s[i]) < 0 ==> cmp(key, s[j]) < 0) && (cmp(key, s[j]) > 0 ==> cmp(key, s[i]) > 0)
  }

  /**
   * binary_search: halve [lo, hi] until the middle element compares equal
   * to the key or the range is empty.
   */
  method Search<T(!new)>(key: T, a: array<T>, cmp: (T, T) -> int) returns (r: Option<nat>)
    requires PartitionedFor(a[..], key, cmp)
    ensures r.Some? ==> r.value < a.Length && cmp(key, a[r.value]) == 0
    ensures r.None? ==> forall i :: 0 <= i < a.Length ==> cmp(key, a[i]) != 0
  {
    var lo := 0;
    var hi := a.Length - 1;
    while lo <= hi
      invariant 0 <= lo <= hi + 1 <= a.Length
      invariant forall i :: 0 <= i < lo ==> cmp(key, a[i]) > 0
      invariant forall i :: hi < i < a.Length ==> cmp(key, a[i]) < 0
      decreases hi - lo
    {
      var mid := (lo + hi) / 2;
      if cmp(key, a[mid]) < 0 {
        assert forall i :: mid < i < a.Length ==> cmp(key, a[i]) < 0 by {
          var s := a[..];
          assert forall i :: mid < i < a.Length ==> s[i] == a[i];
        }
        hi := mid - 1;
      } else if cmp(key, a[mid]) > 0 {
        assert forall i :: 0 <= i < mid ==> cmp(key, a[i]) > 0 by {
          var s := a[..];
          assert forall i :: 0 <= i < mid ==> s[i] == a[i];
        }
        lo := mid + 1;
      } else {
        return Some(mid);
      }
    }
    return None;
  }

  /** int_cmp: 1, -1 or 0 as the key is greater than, less than or equal to the element. */
  function IntCmp(k: int, e: int): (r: int)
    ensures r == 1 <==> k > e
    ensures r == -1 <==> k < e
    ensures r == 0 <==> k == e
  {
    if k > e then 1 else if k < e then -1 else 0
  }

  /**
   * str_cmp: strcmp of the two strings, by the sign it promises. Characters
   * are compared as numbers and a proper prefix is the smaller string, as
   * the terminating NUL is below every character.
   */
  function StrCmp(a: string, b: string): (r: int)
    ensures -1 <= r <= 1
    ensures r == 0 <==> a == b
  {
    if a == [] && b == [] then 0
    else if a == [] then -1
    else if b == [] then 1
    else if a[0] < b[0] then -1
    else if a[0] > b[0] then 1
    else
      var r := StrCmp(a[1..], b[1..]);
      assert r == 0 ==> a == [a[0]] + a[1..] == [b[0]] + b[1..] == b;
      r
  }

  /** Swapping the strings negates the comparison. */
  lemma {:induction false} StrCmpAntisymmetric(a: string, b: string)
    ensures StrCmp(a, b) == -StrCmp(b, a)
  {
    if a != [] && b != [] && a[0] == b[0] {
      StrCmpAntisymmetric(a[1..], b[1..]);
    }
  }

  /** strcmp orders strings transitively. */
  lemma {:induction false} StrCmpTransitive(a: string, b: string, c: string)
    requires StrCmp(a, b) < 0 && StrCmp(b, c) < 0
    ensures StrCmp(a, c) < 0
  {
    if a != [] && b != [] && c != [] && a[0] == b[0] == c[0] {
      StrCmpTransitive(a[1..], b[1..], c[1..]);
    }
  }

  /** An ascending int array is partitioned for every key under int_cmp. */
  lemma IntSortedPartitioned(s: seq<int>, key: int)
    requires forall i, j :: 0 <= i < j < |s| ==> s[i] <= s[j]
    ensures PartitionedFor(s, key, IntCmp)
  {
  }

  /** An ascending string array is partitioned for every key under str_cmp. */
  lemma StrSortedPartitioned(s: seq<string>, key: string)
    requires forall i, j :: 0 <= i < j < |s| ==> StrCmp(s[i], s[j]) <= 0
    ensures PartitionedFor(s, key, StrCmp)
  {
    forall i, j | 0 <= i < j < |s|
      ensures StrCmp(key, s[i]) < 0 ==> StrCmp(key, s[j]) < 0
      ensures StrCmp(key, s[j]) > 0 ==> StrCmp(key, s[i]) > 0
    {
      if StrCmp(key, s[i]) < 0 && s[i] != s[j] {
        StrCmpTransitive(key, s[i], s[j]);
      }
      if StrCmp(key, s[j]) > 0 && s[i] != s[j] {
        StrCmpAntisymmetric(key, s[j]);
        StrCmpTransitive(s[i], s[j], key);
        StrCmpAntisymmetric(s[i], key);
      }
    }
  }

  /** The int array of the source's driver: 76 is found at index 4 and 77 is absent. */
  method IntExample() returns (found: Option<nat>, missing: Option<nat>)
    ensures found == Some(4) && missing == None
  {
    var a := new int[] [1, 20, 25, 32, 76, 123];
    IntSortedPartitioned(a[..], 76);
    IntSortedPartitioned(a[..], 77);
    found := Search(76, a, IntCmp);
    missing := Search(77, a, IntCmp);
    if found.Some? {
      assert a[found.value] == 76;
    }
    assert a[4] == 76;
  }

  /** Strings "e0" followed by one character compare as that character. */
  lemma E0Cmp(c: char, d: char)
    ensures StrCmp("e0" + [c], "e0" + [d]) == IntCmp(c as int, d as int)
  {
    var x, y := "e0" + [c], "e0" + [d];
    assert x[1..] == "0" + [c] && x[1..][1..] == [c] && [c][1..] == [];
    assert y[1..] == "0" + [d] && y[1..][1..] == [d] && [d][1..] == [];
  }

  /** The string array of the source's driver, "e01" to "e06", and where each of its strings sits. */
  lemma E0Array(s: seq<string>)
    requires s == ["e01", "e02", "e03", "e04", "e05", "e06"]
    ensures forall i, j :: 0 <= i < j < |s| ==> StrCmp(s[i], s[j]) <= 0
    ensures forall i :: 0 <= i < |s| && s[i] == "e01" ==> i == 0
    ensures forall i :: 0 <= i < |s| ==> s[i] != "e07"
  {
    var ds := "123456";
    assert forall i :: 0 <= i < |s| ==> s[i] == "e0" + [ds[i]];
    forall i, j | 0 <= i < j < |s|
      ensures StrCmp(s[i], s[j]) <= 0
    {
      E0Cmp(ds[i], ds[j]);
    }
    forall i | 0 <= i < |s|
      ensures s[i] == "e01" ==> i == 0
      ensures s[i] != "e07"
    {
      assert s[i][2] == ds[i];
    }
  }

  /** What a search of the driver's string array can return for "e01" and for "e07". */
  lemma E0Results(s: seq<string>, found: Option<nat>, missing: Option<nat>)
    requires s == ["e01", "e02", "e03", "e04", "e05", "e06"]
    requires found.Some? ==> found.value < |s| && StrCmp("e01", s[found.value]) == 0
    requires found.None? ==> forall i :: 0 <= i < |s| ==> StrCmp("e01", s[i]) != 0
    requires missing.Some? ==> missing.value < |s| && StrCmp("e07", s[missing.value]) == 0
    ensures found == Some(0) && missing == None
  {
    E0Array(s);
    assert StrCmp("e01", s[0]) == 0;
  }

  /** The string array of the source's driver: "e01" is found at index 0 and "e07" is absent. */
  method StrExample() returns (found: Option<nat>, missing: Option<nat>)
    ensures found == Some(0) && missing == None
  {
    var a := new string[] ["e01", "e02", "e03", "e04", "e05", "e06"];
    ghost var s := a[..];
    E0Array(s);
    StrSortedPartitioned(s, "e01");
    StrSortedPartitioned(s, "e07");
    found := Search("e01", a, StrCmp);
    missing := Search("e07", a, StrCmp);
    E0Results(s, found, missing);
  }
}

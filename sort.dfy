/**
 * The sorting routines of src/sort.c: insertion sort by adjacent swaps and
 * top-down merge sort with an auxiliary copy.
 *
 * The three-way comparator is a key function into the integers:
 * `cmp(p, q) < 0` holds exactly when `key(p) < key(q)`. Elements with equal
 * keys may still differ, which is what makes stability observable.
 */
module Sorting {

  /** Positions lo..hi-1 of `s` are in non-decreasing key order. */
  ghost predicate SortedBetween<T>(s: seq<T>, lo: int, hi: int, key: T -> int)
    requires 0 <= lo <= hi <= |s|
  {
    forall p, q :: lo <= p < q < hi ==> key(s[p]) <= key(s[q])
  }

  ghost predicate Sorted<T>(s: seq<T>, key: T -> int)
  {
    SortedBetween(s, 0, |s|, key)
  }

  /** The elements of `s` with key `x`, in their order in `s`. */
  function Filter<T>(s: seq<T>, x: int, key: T -> int): (r: seq<T>)
    ensures |r| <= |s|
  {
    if s == [] then []
    else if key(s[0]) == x then [s[0]] + Filter(s[1..], x, key)
    else Filter(s[1..], x, key)
  }

  /**
   * `r` holds, for every key, the same elements in the same order as `s`:
   * it is a rearrangement that keeps equal keys in their original order.
   */
  ghost predicate SameFilters<T>(r: seq<T>, s: seq<T>, key: T -> int)
  {
    forall x :: Filter(r, x, key) == Filter(s, x, key)
  }

  /** The merge of two runs as upo_merge performs it: the right run's head is taken only when strictly smaller. */
  function MergeSeq<T>(xs: seq<T>, ys: seq<T>, key: T -> int): (r: seq<T>)
    ensures |r| == |xs| + |ys|
    decreases |xs| + |ys|
  {
    if xs == [] then ys
    else if ys == [] then xs
    else if key(ys[0]) < key(xs[0]) then [ys[0]] + MergeSeq(xs, ys[1..], key)
    else [xs[0]] + MergeSeq(xs[1..], ys, key)
  }

  // ---------------------------------------------------------------------
  // Properties of Filter.

  lemma {:induction false} FilterAppend<T>(s: seq<T>, t: seq<T>, x: int, key: T -> int)
    ensures Filter(s + t, x, key) == Filter(s, x, key) + Filter(t, x, key)
  {
    if s == [] {
      assert s + t == t;
    } else {
      FilterAppend(s[1..], t, x, key);
      assert (s + t)[0] == s[0];
      assert (s + t)[1..] == s[1..] + t;
      if key(s[0]) == x {
        calc {
          Filter(s + t, x, key);
          [s[0]] + Filter(s[1..] + t, x, key);
          [s[0]] + (Filter(s[1..], x, key) + Filter(t, x, key));
        }
      }
    }
  }

  /** An element occurs in `s` as often as in the elements of `s` sharing its key. */
  lemma {:induction false} FilterCount<T>(s: seq<T>, e: T, key: T -> int)
    ensures multiset(Filter(s, key(e), key))[e] == multiset(s)[e]
  {
    if s != [] {
      FilterCount(s[1..], e, key);
      assert s == [s[0]] + s[1..];
    }
  }

  /** Keeping the order of every key class keeps the elements: a stable rearrangement is a permutation. */
  lemma SameFiltersPermutation<T>(r: seq<T>, s: seq<T>, key: T -> int)
    requires SameFilters(r, s, key)
    ensures multiset(r) == multiset(s)
  {
    forall e
      ensures multiset(r)[e] == multiset(s)[e]
    {
      FilterCount(r, e, key);
      FilterCount(s, e, key);
      assert Filter(r, key(e), key) == Filter(s, key(e), key);
    }
  }

  /** Swapping two neighbours with different keys changes no key class. */
  lemma SwapKeepsFilters<T>(s: seq<T>, j: int, key: T -> int)
    requires 0 < j < |s| && key(s[j - 1]) != key(s[j])
    ensures SameFilters(s[j - 1 := s[j]][j := s[j - 1]], s, key)
  {
    var s' := s[j - 1 := s[j]][j := s[j - 1]];
    var pre, post := s[..j - 1], s[j + 1..];
    assert s == pre + [s[j - 1], s[j]] + post;
    assert s' == pre + [s[j], s[j - 1]] + post;
    forall x
      ensures Filter(s', x, key) == Filter(s, x, key)
    {
      FilterAppend(pre + [s[j - 1], s[j]], post, x, key);
      FilterAppend(pre, [s[j - 1], s[j]], x, key);
      FilterAppend(pre + [s[j], s[j - 1]], post, x, key);
      FilterAppend(pre, [s[j], s[j - 1]], x, key);
      assert [s[j - 1], s[j]][1..] == [s[j]];
      assert [s[j], s[j - 1]][1..] == [s[j - 1]];
    }
  }

  lemma FilterNonEmpty<T>(s: seq<T>, key: T -> int)
    requires s != []
    ensures Filter(s, key(s[0]), key) != []
  {
  }

  /** Keys smaller than the head do not occur in a sorted sequence. */
  lemma {:induction false} FilterBelowHead<T>(s: seq<T>, x: int, key: T -> int)
    requires s != [] && Sorted(s, key) && x < key(s[0])
    ensures Filter(s, x, key) == []
  {
    if |s| > 1 {
      assert Sorted(s[1..], key);
      FilterBelowHead(s[1..], x, key);
    }
  }

  /**
   * A stable sort has exactly one possible result: two sorted sequences
   * with the same key classes are equal.
   */
  lemma {:induction false} StableSortUnique<T>(r1: seq<T>, r2: seq<T>, key: T -> int)
    requires Sorted(r1, key) && Sorted(r2, key) && SameFilters(r1, r2, key)
    ensures r1 == r2
    decreases |r1|
  {
    if r1 != [] && r2 == [] {
      FilterNonEmpty(r1, key);
    } else if r1 == [] && r2 != [] {
      FilterNonEmpty(r2, key);
    } else if r1 != [] {
      var m1, m2 := key(r1[0]), key(r2[0]);
      if m1 < m2 {
        FilterBelowHead(r2, m1, key);
      } else if m2 < m1 {
        FilterBelowHead(r1, m2, key);
      } else {
        assert Filter(r1, m1, key) == Filter(r2, m1, key);
        assert Sorted(r1[1..], key) && Sorted(r2[1..], key);
        assert r1[0] == Filter(r1, m1, key)[0] == Filter(r2, m1, key)[0] == r2[0];
        forall x
          ensures Filter(r1[1..], x, key) == Filter(r2[1..], x, key)
        {
          assert Filter(r1, x, key) == Filter(r2, x, key);
          if x == m1 {
            assert Filter(r1[1..], x, key) == Filter(r1, x, key)[1..];
            assert Filter(r2[1..], x, key) == Filter(r2, x, key)[1..];
          }
        }
        StableSortUnique(r1[1..], r2[1..], key);
        assert r1 == [r1[0]] + r1[1..] && r2 == [r2[0]] + r2[1..];
      }
    }
  }

  // ---------------------------------------------------------------------
  // Properties of the merge.

  /** Merging two sorted runs gives a sorted run. */
  lemma {:induction false} MergeSorted<T>(xs: seq<T>, ys: seq<T>, key: T -> int)
    requires Sorted(xs, key) && Sorted(ys, key)
    ensures Sorted(MergeSeq(xs, ys, key), key)
    ensures MergeSeq(xs, ys, key) != [] ==>
              (xs != [] && MergeSeq(xs, ys, key)[0] == xs[0]) || (ys != [] && MergeSeq(xs, ys, key)[0] == ys[0])
    decreases |xs| + |ys|
  {
    if xs != [] && ys != [] {
      var r := MergeSeq(xs, ys, key);
      if key(ys[0]) < key(xs[0]) {
        MergeSorted(xs, ys[1..], key);
        var t := MergeSeq(xs, ys[1..], key);
        assert forall q :: 0 <= q < |t| ==> key(ys[0]) <= key(t[q]) by {
          HeadBelow(xs, ys[1..], key(ys[0]), key);
        }
        assert r == [ys[0]] + t;
      } else {
        MergeSorted(xs[1..], ys, key);
        var t := MergeSeq(xs[1..], ys, key);
        assert forall q :: 0 <= q < |t| ==> key(xs[0]) <= key(t[q]) by {
          HeadBelow(xs[1..], ys, key(xs[0]), key);
        }
        assert r == [xs[0]] + t;
      }
    }
  }

  /** A lower bound of both runs bounds their merge. */
  lemma {:induction false} HeadBelow<T>(xs: seq<T>, ys: seq<T>, b: int, key: T -> int)
    requires forall q :: 0 <= q < |xs| ==> b <= key(xs[q])
    requires forall q :: 0 <= q < |ys| ==> b <= key(ys[q])
    ensures forall q :: 0 <= q < |MergeSeq(xs, ys, key)| ==> b <= key(MergeSeq(xs, ys, key)[q])
    decreases |xs| + |ys|
  {
    if xs != [] && ys != [] {
      if key(ys[0]) < key(xs[0]) {
        HeadBelow(xs, ys[1..], b, key);
      } else {
        HeadBelow(xs[1..], ys, b, key);
      }
    }
  }

  /** The key class of x in a merge that starts with the right run's head. */
  lemma FilterMergeRight<T>(xs: seq<T>, ys: seq<T>, x: int, key: T -> int)
    requires xs != [] && ys != [] && key(ys[0]) < key(xs[0])
    ensures Filter(MergeSeq(xs, ys, key), x, key) == Filter([ys[0]], x, key) + Filter(MergeSeq(xs, ys[1..], key), x, key)
  {
    assert MergeSeq(xs, ys, key) == [ys[0]] + MergeSeq(xs, ys[1..], key);
    FilterAppend([ys[0]], MergeSeq(xs, ys[1..], key), x, key);
  }

  /** The key class of x in xs + ys, with the head of ys taken apart. */
  lemma FilterSplitHead<T>(xs: seq<T>, ys: seq<T>, x: int, key: T -> int)
    requires ys != []
    ensures Filter(xs + ys, x, key) == Filter(xs, x, key) + Filter([ys[0]], x, key) + Filter(ys[1..], x, key)
  {
    assert xs + ys == (xs + [ys[0]]) + ys[1..];
    FilterAppend(xs + [ys[0]], ys[1..], x, key);
    FilterAppend(xs, [ys[0]], x, key);
  }

  /** Taking the right run's strictly smaller head keeps the key class of x in order. */
  lemma StableTakeRight<T>(xs: seq<T>, ys: seq<T>, x: int, key: T -> int)
    requires xs != [] && ys != [] && key(ys[0]) < key(xs[0]) && Sorted(xs, key)
    requires Filter(MergeSeq(xs, ys[1..], key), x, key) == Filter(xs + ys[1..], x, key)
    ensures Filter(MergeSeq(xs, ys, key), x, key) == Filter(xs + ys, x, key)
  {
    FilterMergeRight(xs, ys, x, key);
    FilterSplitHead(xs, ys, x, key);
    FilterAppend(xs, ys[1..], x, key);
    if x == key(ys[0]) {
      FilterBelowHead(xs, x, key);
    }
    EmptyCommutes(Filter([ys[0]], x, key), Filter(xs, x, key), Filter(ys[1..], x, key));
  }

  /** Two parts of a concatenation, one of them empty, may change places. */
  lemma EmptyCommutes<T>(a: seq<T>, b: seq<T>, c: seq<T>)
    requires a == [] || b == []
    ensures a + (b + c) == b + a + c
  {
  }

  /** Taking the left run's head keeps the key class of x in order. */
  lemma StableTakeLeft<T>(xs: seq<T>, ys: seq<T>, x: int, key: T -> int)
    requires xs != [] && ys != [] && key(xs[0]) <= key(ys[0])
    requires Filter(MergeSeq(xs[1..], ys, key), x, key) == Filter(xs[1..] + ys, x, key)
    ensures Filter(MergeSeq(xs, ys, key), x, key) == Filter(xs + ys, x, key)
  {
    assert (xs + ys)[1..] == xs[1..] + ys;
  }

  /**
   * Ties come from the left run: every key class of the merge is the left
   * run's class followed by the right run's, so merging is stable.
   */
  lemma {:induction false} MergeStable<T>(xs: seq<T>, ys: seq<T>, key: T -> int)
    requires Sorted(xs, key) && Sorted(ys, key)
    ensures SameFilters(MergeSeq(xs, ys, key), xs + ys, key)
    decreases |xs| + |ys|
  {
    if xs == [] {
      assert xs + ys == ys;
    } else if ys == [] {
      assert xs + ys == xs;
    } else if key(ys[0]) < key(xs[0]) {
      assert Sorted(ys[1..], key);
      MergeStable(xs, ys[1..], key);
      forall x
        ensures Filter(MergeSeq(xs, ys, key), x, key) == Filter(xs + ys, x, key)
      {
        StableTakeRight(xs, ys, x, key);
      }
    } else {
      assert Sorted(xs[1..], key);
      MergeStable(xs[1..], ys, key);
      forall x
        ensures Filter(MergeSeq(xs, ys, key), x, key) == Filter(xs + ys, x, key)
      {
        StableTakeLeft(xs, ys, x, key);
      }
    }
  }

  /** The merge's next element comes from the right run when the left is exhausted or its head is larger. */
  lemma MergeTakeRight<T>(xr: seq<T>, yr: seq<T>, key: T -> int)
    requires yr != [] && (xr == [] || key(yr[0]) < key(xr[0]))
    ensures MergeSeq(xr, yr, key) == [yr[0]] + MergeSeq(xr, yr[1..], key)
  {
    if xr == [] {
      assert yr == [yr[0]] + yr[1..];
    }
  }

  /** Otherwise it comes from the left run. */
  lemma MergeTakeLeft<T>(xr: seq<T>, yr: seq<T>, key: T -> int)
    requires xr != [] && (yr == [] || key(xr[0]) <= key(yr[0]))
    ensures MergeSeq(xr, yr, key) == [xr[0]] + MergeSeq(xr[1..], yr, key)
  {
    if yr == [] {
      assert xr == [xr[0]] + xr[1..];
    }
  }

  /** The state of upo_merge's loop: what it wrote, followed by the merge of what is left, is the whole merge. */
  ghost predicate MergedSoFar<T>(aux: seq<T>, left: int, i: int, j: int, done: seq<T>, all: seq<T>, key: T -> int)
  {
    0 <= i <= left <= j <= |aux| && done + MergeSeq(aux[i..left], aux[j..], key) == all
  }

  /** Taking the head of the right run keeps the merge state. */
  lemma MergeStepRight<T>(aux: seq<T>, left: int, i: int, j: int, done: seq<T>, all: seq<T>, key: T -> int)
    requires MergedSoFar(aux, left, i, j, done, all, key) && j < |aux|
    requires i == left || key(aux[j]) < key(aux[i])
    ensures MergedSoFar(aux, left, i, j + 1, done + [aux[j]], all, key)
  {
    assert aux[j..][1..] == aux[j + 1..];
    MergeTakeRight(aux[i..left], aux[j..], key);
    var rest := MergeSeq(aux[i..left], aux[j + 1..], key);
    assert (done + [aux[j]]) + rest == done + ([aux[j]] + rest);
  }

  /** Taking the head of the left run keeps the merge state. */
  lemma MergeStepLeft<T>(aux: seq<T>, left: int, i: int, j: int, done: seq<T>, all: seq<T>, key: T -> int)
    requires MergedSoFar(aux, left, i, j, done, all, key) && i < left
    requires j == |aux| || key(aux[i]) <= key(aux[j])
    ensures MergedSoFar(aux, left, i + 1, j, done + [aux[i]], all, key)
  {
    assert aux[i..left][1..] == aux[i + 1..left];
    MergeTakeLeft(aux[i..left], aux[j..], key);
    var rest := MergeSeq(aux[i + 1..left], aux[j..], key);
    assert (done + [aux[i]]) + rest == done + ([aux[i]] + rest);
  }


  /** The loop starts with nothing written. */
  lemma MergeBounds<T>(aux: seq<T>, left: int, key: T -> int)
    requires 0 <= left <= |aux|
    ensures MergedSoFar(aux, left, 0, left, [], MergeSeq(aux[..left], aux[left..], key), key)
  {
    assert aux[0..left] == aux[..left];
    assert [] + MergeSeq(aux[..left], aux[left..], key) == MergeSeq(aux[..left], aux[left..], key);
  }

  /** The loop ends, with both runs consumed, having written the whole merge. */
  lemma MergeDone<T>(aux: seq<T>, left: int, done: seq<T>, all: seq<T>, key: T -> int)
    requires MergedSoFar(aux, left, left, |aux|, done, all, key)
    ensures done == all
  {
    assert aux[left..left] == [] && aux[|aux|..] == [];
    assert done + [] == done;
  }

  /** The two runs of the copy are the two runs of the array. */
  lemma RunsOfCopy<T>(s: seq<T>, lo: int, mid: int, hi: int)
    requires 0 <= lo <= mid <= hi < |s|
    ensures s[lo..hi + 1][..mid + 1 - lo] == s[lo..mid + 1]
    ensures s[lo..hi + 1][mid + 1 - lo..] == s[mid + 1..hi + 1]
  {
  }

  /** Writing v just after the merged prefix of the array extends that prefix by v. */
  lemma WriteExtends<T>(s0: seq<T>, done: seq<T>, lo: int, k: int, v: T)
    requires 0 <= lo <= k < |s0| && |done| == k - lo
    ensures (s0[..lo] + done + s0[k..])[k := v] == s0[..lo] + (done + [v]) + s0[k + 1..]
  {
    var x := (s0[..lo] + done + s0[k..])[k := v];
    var y := s0[..lo] + (done + [v]) + s0[k + 1..];
    assert |x| == |y|;
    forall p | 0 <= p < |x|
      ensures x[p] == y[p]
    {
    }
  }

  /** A sequence built from three parts gives back each part by slicing. */
  lemma ThreeParts<T>(x: seq<T>, front: seq<T>, middle: seq<T>, back: seq<T>)
    requires x == front + middle + back
    ensures x[..|front|] == front
    ensures x[|front|..|front| + |middle|] == middle
    ensures x[|front| + |middle|..] == back
  {
  }

  // ---------------------------------------------------------------------
  // The routines.

  /**
   * The state of the inner loop of insertion sort at position j while
   * inserting element i: both sides of j sorted, and the left side's keys
   * no greater than those right of j.
   */
  ghost predicate Inserting<T>(s: seq<T>, i: int, j: int, key: T -> int)
  {
    && 0 <= j <= i < |s|
    && SortedBetween(s, 0, j, key) && SortedBetween(s, j, i + 1, key)
    && forall p, q :: 0 <= p < j < q <= i ==> key(s[p]) <= key(s[q])
  }

  /** One swap of the inner loop moves the element one place left and keeps the loop's state. */
  lemma InsertionSwap<T>(s: seq<T>, s0: seq<T>, i: int, j: int, key: T -> int)
    requires Inserting(s, i, j, key) && 0 < j && key(s[j]) < key(s[j - 1])
    requires SameFilters(s, s0, key)
    ensures Inserting(s[j - 1 := s[j]][j := s[j - 1]], i, j - 1, key)
    ensures SameFilters(s[j - 1 := s[j]][j := s[j - 1]], s0, key)
  {
    SwapKeepsFilters(s, j, key);
    var s' := s[j - 1 := s[j]][j := s[j - 1]];
    forall x
      ensures Filter(s', x, key) == Filter(s0, x, key)
    {
      assert Filter(s', x, key) == Filter(s, x, key);
    }
  }

  /** The inner loop stops with the prefix up to i sorted. */
  lemma InsertionDone<T>(s: seq<T>, i: int, j: int, key: T -> int)
    requires Inserting(s, i, j, key) && (j == 0 || key(s[j - 1]) <= key(s[j]))
    ensures SortedBetween(s, 0, i + 1, key)
  {
    forall p, q | 0 <= p < q < i + 1
      ensures key(s[p]) <= key(s[q])
    {
      if p < j && q == j {
        assert key(s[p]) <= key(s[j - 1]);
      }
    }
  }

  /**
   * upo_insertion_sort: each element is swapped leftwards while it is
   * strictly smaller than its left neighbour.
   */
  method InsertionSort<T>(a: array<T>, key: T -> int)
    requires 0 < a.Length
    modifies a
    ensures Sorted(a[..], key)
    ensures SameFilters(a[..], old(a[..]), key)
    ensures multiset(a[..]) == multiset(old(a[..]))
  {
    ghost var s0 := a[..];
    for i := 1 to a.Length
      invariant SortedBetween(a[..], 0, i, key)
      invariant SameFilters(a[..], s0, key)
    {
      var j := i;
      while j > 0 && key(a[j]) < key(a[j - 1])
        invariant Inserting(a[..], i, j, key)
        invariant SameFilters(a[..], s0, key)
      {
        InsertionSwap(a[..], s0, i, j, key);
        a[j - 1], a[j] := a[j], a[j - 1];
        j := j - 1;
      }
      InsertionDone(a[..], i, j, key);
    }
    SameFiltersPermutation(a[..], s0, key);
  }

  /**
   * The choice made by each step of upo_merge: the right run's head when the
   * left run is exhausted or the right head is strictly smaller, otherwise
   * the left run's head.
   */
  method MergeTake<T>(aux: seq<T>, left: int, i: int, j: int, ghost done: seq<T>, ghost all: seq<T>, key: T -> int)
    returns (v: T, i': int, j': int)
    requires MergedSoFar(aux, left, i, j, done, all, key) && (i < left || j < |aux|)
    ensures MergedSoFar(aux, left, i', j', done + [v], all, key)
    ensures i' + j' == i + j + 1
  {
    if i >= left {
      MergeStepRight(aux, left, i, j, done, all, key);
      v, i', j' := aux[j], i, j + 1;
    } else if j >= |aux| {
      MergeStepLeft(aux, left, i, j, done, all, key);
      v, i', j' := aux[i], i + 1, j;
    } else if key(aux[j]) < key(aux[i]) {
      MergeStepRight(aux, left, i, j, done, all, key);
      v, i', j' := aux[j], i, j + 1;
    } else {
      MergeStepLeft(aux, left, i, j, done, all, key);
      v, i', j' := aux[i], i + 1, j;
    }
  }

  /** Merging the copy of the two runs back in place gives the merge of the runs, and nothing else changes. */
  lemma MergedRange<T>(s0: seq<T>, s3: seq<T>, lo: int, mid: int, hi: int, key: T -> int)
    requires 0 <= lo <= mid <= hi < |s0|
    requires s3 == s0[..lo] + MergeSeq(s0[lo..hi + 1][..mid + 1 - lo], s0[lo..hi + 1][mid + 1 - lo..], key) + s0[hi + 1..]
    ensures s3[lo..hi + 1] == MergeSeq(s0[lo..mid + 1], s0[mid + 1..hi + 1], key)
    ensures s3[..lo] == s0[..lo] && s3[hi + 1..] == s0[hi + 1..]
  {
    RunsOfCopy(s0, lo, mid, hi);
    ThreeParts(s3, s0[..lo], MergeSeq(s0[lo..mid + 1], s0[mid + 1..hi + 1], key), s0[hi + 1..]);
  }

  /**
   * The loop of upo_merge: the two runs aux[..left] and aux[left..] are
   * merged back into the array from position lo on.
   */
  method MergeBack<T>(a: array<T>, aux: seq<T>, lo: int, left: int, key: T -> int)
    requires 0 <= left <= |aux| && 0 <= lo && lo + |aux| <= a.Length
    modifies a
    ensures a[..] == old(a[..])[..lo] + MergeSeq(aux[..left], aux[left..], key) + old(a[..])[lo + |aux|..]
  {
    ghost var s0 := a[..];
    ghost var all := MergeSeq(aux[..left], aux[left..], key);
    var i, j := 0, left;
    ghost var done: seq<T> := [];
    MergeBounds(aux, left, key);
    for k := lo to lo + |aux|
      invariant MergedSoFar(aux, left, i, j, done, all, key)
      invariant k - lo == i + (j - left) == |done|
      invariant a[..] == s0[..lo] + done + s0[k..]
    {
      var v;
      v, i, j := MergeTake(aux, left, i, j, done, all, key);
      ghost var before := a[..];
      a[k] := v;
      assert a[..] == before[k := v];
      WriteExtends(s0, done, lo, k, v);
      done := done + [v];
    }
    assert i == left && j == |aux|;
    MergeDone(aux, left, done, all, key);
  }

  /**
   * upo_merge: base[lo..mid] and base[mid+1..hi] are copied to an auxiliary
   * buffer and merged back into base[lo..hi].
   */
  method Merge<T>(a: array<T>, lo: int, mid: int, hi: int, key: T -> int)
    requires 0 <= lo <= mid <= hi < a.Length
    modifies a
    ensures a[lo..hi + 1] == MergeSeq(old(a[lo..mid + 1]), old(a[mid + 1..hi + 1]), key)
    ensures a[..lo] == old(a[..lo]) && a[hi + 1..] == old(a[hi + 1..])
  {
    ghost var s0 := a[..];
    var aux := a[lo..hi + 1];
    MergeBack(a, aux, lo, mid + 1 - lo, key);
    MergedRange(s0, a[..], lo, mid, hi, key);
    assert a[lo..hi + 1] == a[..][lo..hi + 1];
    assert a[..lo] == a[..][..lo] && a[hi + 1..] == a[..][hi + 1..];
  }

  /** The two halves sorted in turn, then merged, give the range sorted and stably rearranged. */
  lemma DriverStep<T>(s0: seq<T>, s1: seq<T>, s2: seq<T>, s3: seq<T>, lo: int, mid: int, hi: int, key: T -> int)
    requires 0 <= lo <= mid < hi < |s0| == |s1| == |s2| == |s3|
    requires Sorted(s1[lo..mid + 1], key) && SameFilters(s1[lo..mid + 1], s0[lo..mid + 1], key)
    requires s1[..lo] == s0[..lo] && s1[mid + 1..] == s0[mid + 1..]
    requires Sorted(s2[mid + 1..hi + 1], key) && SameFilters(s2[mid + 1..hi + 1], s1[mid + 1..hi + 1], key)
    requires s2[..mid + 1] == s1[..mid + 1] && s2[hi + 1..] == s1[hi + 1..]
    requires s3[lo..hi + 1] == MergeSeq(s2[lo..mid + 1], s2[mid + 1..hi + 1], key)
    requires s3[..lo] == s2[..lo] && s3[hi + 1..] == s2[hi + 1..]
    ensures Sorted(s3[lo..hi + 1], key) && SameFilters(s3[lo..hi + 1], s0[lo..hi + 1], key)
    ensures s3[..lo] == s0[..lo] && s3[hi + 1..] == s0[hi + 1..]
  {
    assert s2[lo..mid + 1] == s1[lo..mid + 1] by {
      assert s2[lo..mid + 1] == s2[..mid + 1][lo..];
      assert s1[lo..mid + 1] == s1[..mid + 1][lo..];
    }
    assert s1[mid + 1..hi + 1] == s0[mid + 1..hi + 1] by {
      assert s1[mid + 1..hi + 1] == s1[mid + 1..][..hi - mid];
      assert s0[mid + 1..hi + 1] == s0[mid + 1..][..hi - mid];
    }
    MergeSorted(s2[lo..mid + 1], s2[mid + 1..hi + 1], key);
    MergeStable(s2[lo..mid + 1], s2[mid + 1..hi + 1], key);
    assert s2[lo..hi + 1] == s2[lo..mid + 1] + s2[mid + 1..hi + 1];
    assert s0[lo..hi + 1] == s0[lo..mid + 1] + s0[mid + 1..hi + 1];
    var r, q := s3[lo..hi + 1], s0[lo..hi + 1];
    forall x
      ensures Filter(r, x, key) == Filter(q, x, key)
    {
      FilterAppend(s2[lo..mid + 1], s2[mid + 1..hi + 1], x, key);
      FilterAppend(s0[lo..mid + 1], s0[mid + 1..hi + 1], x, key);
    }
    assert s2[..lo] == s1[..lo] by {
      assert s2[..lo] == s2[..mid + 1][..lo];
      assert s1[..lo] == s1[..mid + 1][..lo];
    }
    assert s1[hi + 1..] == s0[hi + 1..] by {
      assert s1[hi + 1..] == s1[mid + 1..][hi - mid..];
      assert s0[hi + 1..] == s0[mid + 1..][hi - mid..];
    }
  }

  /** upo_merge_sort_driver_topdown: sorts base[lo..hi], which is empty or a single element when lo >= hi. */
  method MergeSortDriver<T>(a: array<T>, lo: int, hi: int, key: T -> int)
    requires 0 <= lo && hi < a.Length
    modifies a
    decreases hi - lo
    ensures lo <= hi ==> Sorted(a[lo..hi + 1], key) && SameFilters(a[lo..hi + 1], old(a[lo..hi + 1]), key)
    ensures lo <= hi ==> a[..lo] == old(a[..lo]) && a[hi + 1..] == old(a[hi + 1..])
    ensures hi < lo ==> a[..] == old(a[..])
  {
    if lo >= hi {
      return;
    }
    var mid := lo + (hi - lo) / 2;
    ghost var s0 := a[..];
    MergeSortDriver(a, lo, mid, key);
    ghost var s1 := a[..];
    MergeSortDriver(a, mid + 1, hi, key);
    ghost var s2 := a[..];
    Merge(a, lo, mid, hi, key);
    DriverStep(s0, s1, s2, a[..], lo, mid, hi, key);
  }

  /** upo_merge_sort: the driver over the whole array. */
  method MergeSort<T>(a: array<T>, key: T -> int)
    requires 0 < a.Length
    modifies a
    ensures Sorted(a[..], key)
    ensures SameFilters(a[..], old(a[..]), key)
    ensures multiset(a[..]) == multiset(old(a[..]))
  {
    MergeSortDriver(a, 0, a.Length - 1, key);
    assert a[0..a.Length] == a[..];
    assert old(a[0..a.Length]) == old(a[..]);
    SameFiltersPermutation(a[..], old(a[..]), key);
  }
}

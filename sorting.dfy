/** `slice::sort` for an `Ord` element type, which `files_info.sort()`
    applies to the records. For a comparator that is a strict total order
    (`IsComparator`), a sorted permutation of a sequence is unique, so the
    result of the sort depends neither on the sorting algorithm nor on the
    order the elements came in. */
module Sorting {
  import opened Base
  import opened Compare

  predicate Le<T>(a: T, b: T, cmp: (T, T) -> Ordering) {
    cmp(a, b) != Greater
  }

  /** Ascending: every earlier element is at most every later one. */
  predicate Sorted<T>(s: seq<T>, cmp: (T, T) -> Ordering) {
    forall i, j | 0 <= i < j < |s| :: Le(s[i], s[j], cmp)
  }

  predicate AdjacentSorted<T>(s: seq<T>, cmp: (T, T) -> Ordering) {
    forall i | 0 <= i < |s| - 1 :: Le(s[i], s[i + 1], cmp)
  }

  lemma LeTotal<T(!new)>(a: T, b: T, cmp: (T, T) -> Ordering)
    requires IsComparator(cmp)
    ensures Le(a, b, cmp) || Le(b, a, cmp)
  {
    assert cmp(b, a) == cmp(a, b).Reverse();
  }

  lemma LeAntisymmetric<T(!new)>(a: T, b: T, cmp: (T, T) -> Ordering)
    requires IsComparator(cmp)
    requires Le(a, b, cmp) && Le(b, a, cmp)
    ensures a == b
  {
    assert cmp(b, a) == cmp(a, b).Reverse();
  }

  lemma LeTransitive<T(!new)>(a: T, b: T, c: T, cmp: (T, T) -> Ordering)
    requires IsComparator(cmp)
    requires Le(a, b, cmp) && Le(b, c, cmp)
    ensures Le(a, c, cmp)
  {
    if cmp(a, b) == Equal || cmp(b, c) == Equal {
    } else {
      assert cmp(a, b) == Less && cmp(b, c) == Less;
    }
  }

  lemma SortedTail<T>(s: seq<T>, cmp: (T, T) -> Ordering)
    requires s != [] && Sorted(s, cmp)
    ensures Sorted(s[1..], cmp)
  {
    forall i, j | 0 <= i < j < |s| - 1 ensures Le(s[1..][i], s[1..][j], cmp) {
      assert s[1..][i] == s[i + 1] && s[1..][j] == s[j + 1];
    }
  }

  /** A sequence whose first element is at most all the others, followed by
      an ascending tail, is ascending. */
  lemma SortedCons<T>(x: T, s: seq<T>, cmp: (T, T) -> Ordering)
    requires Sorted(s, cmp)
    requires forall k | 0 <= k < |s| :: Le(x, s[k], cmp)
    ensures Sorted([x] + s, cmp)
  {
    var r := [x] + s;
    forall i, j | 0 <= i < j < |r| ensures Le(r[i], r[j], cmp) {
      assert r[j] == s[j - 1];
      if i > 0 { assert r[i] == s[i - 1]; }
    }
  }

  lemma {:induction false} AdjacentSortedIsSorted<T(!new)>(s: seq<T>, cmp: (T, T) -> Ordering)
    requires IsComparator(cmp)
    requires AdjacentSorted(s, cmp)
    ensures Sorted(s, cmp)
  {
    if |s| > 1 {
      var tail := s[1..];
      assert AdjacentSorted(tail, cmp) by {
        forall i | 0 <= i < |tail| - 1 ensures Le(tail[i], tail[i + 1], cmp) {
          assert tail[i] == s[i + 1] && tail[i + 1] == s[i + 2];
        }
      }
      AdjacentSortedIsSorted(tail, cmp);
      forall k | 0 <= k < |tail| ensures Le(s[0], tail[k], cmp) {
        if k > 0 {
          LeTransitive(s[0], tail[0], tail[k], cmp);
        }
      }
      SortedCons(s[0], tail, cmp);
      assert s == [s[0]] + tail;
    }
  }

  /** Insert `x` before the first element it does not exceed. */
  function Insert<T>(x: T, s: seq<T>, cmp: (T, T) -> Ordering): seq<T> {
    if s == [] then [x]
    else if Le(x, s[0], cmp) then [x] + s
    else [s[0]] + Insert(x, s[1..], cmp)
  }

  /** The reference sort: insertion sort on values. */
  function SortedSeq<T>(s: seq<T>, cmp: (T, T) -> Ordering): seq<T> {
    if s == [] then [] else Insert(s[0], SortedSeq(s[1..], cmp), cmp)
  }

  lemma {:induction false} InsertSorted<T(!new)>(x: T, s: seq<T>, cmp: (T, T) -> Ordering)
    requires IsComparator(cmp)
    requires Sorted(s, cmp)
    ensures multiset(Insert(x, s, cmp)) == multiset(s) + multiset{x}
    ensures Sorted(Insert(x, s, cmp), cmp)
  {
    if s == [] {
    } else if Le(x, s[0], cmp) {
      forall k | 0 <= k < |s| ensures Le(x, s[k], cmp) {
        if k > 0 { LeTransitive(x, s[0], s[k], cmp); }
      }
      SortedCons(x, s, cmp);
    } else {
      assert s == [s[0]] + s[1..];
      SortedTail(s, cmp);
      InsertSorted(x, s[1..], cmp);
      var tail := Insert(x, s[1..], cmp);
      LeTotal(x, s[0], cmp);
      forall k | 0 <= k < |tail| ensures Le(s[0], tail[k], cmp) {
        assert tail[k] in multiset(tail);
        if tail[k] != x {
          assert tail[k] in multiset(s[1..]);
          var m :| 0 <= m < |s[1..]| && s[1..][m] == tail[k];
          assert s[m + 1] == tail[k];
        }
      }
      SortedCons(s[0], tail, cmp);
    }
  }

  /** The reference sort yields an ascending permutation of its input. */
  lemma {:induction false} SortedSeqCorrect<T(!new)>(s: seq<T>, cmp: (T, T) -> Ordering)
    requires IsComparator(cmp)
    ensures Sorted(SortedSeq(s, cmp), cmp)
    ensures multiset(SortedSeq(s, cmp)) == multiset(s)
  {
    if s != [] {
      SortedSeqCorrect(s[1..], cmp);
      InsertSorted(s[0], SortedSeq(s[1..], cmp), cmp);
      assert s == [s[0]] + s[1..];
    }
  }

  /** Two ascending sequences holding the same elements are identical: the
      outcome of sorting is determined by the multiset of elements alone. */
  lemma {:induction false} SortedUnique<T(!new)>(s: seq<T>, t: seq<T>, cmp: (T, T) -> Ordering)
    requires IsComparator(cmp)
    requires Sorted(s, cmp) && Sorted(t, cmp)
    requires multiset(s) == multiset(t)
    ensures s == t
  {
    if s == [] {
      assert |t| == |multiset(t)| == 0;
    } else {
      assert |t| == |multiset(t)| == |multiset(s)| == |s|;
      assert s[0] in multiset(t) && t[0] in multiset(s);
      SortedHeadLe(t, s[0], cmp);
      SortedHeadLe(s, t[0], cmp);
      LeAntisymmetric(s[0], t[0], cmp);
      assert s == [s[0]] + s[1..] && t == [t[0]] + t[1..];
      assert multiset(s[1..]) == multiset(s) - multiset{s[0]};
      assert multiset(t[1..]) == multiset(t) - multiset{t[0]};
      SortedTail(s, cmp);
      SortedTail(t, cmp);
      SortedUnique(s[1..], t[1..], cmp);
    }
  }

  /** The first element of an ascending sequence is at most each element. */
  lemma SortedHeadLe<T(!new)>(s: seq<T>, x: T, cmp: (T, T) -> Ordering)
    requires IsComparator(cmp)
    requires Sorted(s, cmp) && x in s
    ensures Le(s[0], x, cmp)
  {
    var i :| 0 <= i < |s| && s[i] == x;
    if i == 0 {
      assert cmp(x, x) == Equal;
    }
  }

  /** An adjacent-sorted permutation of `t` is the reference sort of `t`. */
  lemma SortedIsReference<T(!new)>(s: seq<T>, t: seq<T>, cmp: (T, T) -> Ordering)
    requires IsComparator(cmp)
    requires AdjacentSorted(s, cmp) && multiset(s) == multiset(t)
    ensures Sorted(s, cmp) && s == SortedSeq(t, cmp)
  {
    AdjacentSortedIsSorted(s, cmp);
    SortedSeqCorrect(t, cmp);
    SortedUnique(s, SortedSeq(t, cmp), cmp);
  }

  /** The one law of a comparator that moving an element down needs. */
  ghost predicate Reverses<T(!new)>(cmp: (T, T) -> Ordering) {
    forall x, y :: cmp(y, x) == cmp(x, y).Reverse()
  }

  /** `s[..n + 1]` is in ascending order except possibly between positions
      `j - 1` and `j`, where the element being inserted sits. */
  predicate AscendingExcept<T>(s: seq<T>, n: nat, j: nat, cmp: (T, T) -> Ordering)
    requires n < |s|
  {
    && (forall k | 0 <= k < n && k + 1 != j :: Le(s[k], s[k + 1], cmp))
    && (0 < j < n ==> Le(s[j - 1], s[j + 1], cmp))
  }

  /** Swapping the inserted element with a greater left neighbour moves the
      exception one place left and keeps the elements. */
  lemma SwapStep<T(!new)>(s: seq<T>, n: nat, j: nat, cmp: (T, T) -> Ordering)
    requires Reverses(cmp)
    requires 0 < j <= n < |s|
    requires AscendingExcept(s, n, j, cmp)
    requires cmp(s[j - 1], s[j]) == Greater
    ensures AscendingExcept(s[j - 1 := s[j]][j := s[j - 1]], n, j - 1, cmp)
    ensures multiset(s[j - 1 := s[j]][j := s[j - 1]]) == multiset(s)
  {
    assert cmp(s[j], s[j - 1]) == Less;
  }

  /** One step of insertion sort: with `a[..i]` in ascending order, move
      `a[i]` down past every greater element so that `a[..i + 1]` is in
      ascending order. */
  method InsertNext<T(!new)>(a: array<T>, i: nat, cmp: (T, T) -> Ordering)
    requires Reverses(cmp)
    requires i < a.Length
    requires forall k | 0 <= k < i - 1 :: Le(a[k], a[k + 1], cmp)
    modifies a
    ensures forall k | 0 <= k < i :: Le(a[k], a[k + 1], cmp)
    ensures multiset(a[..]) == old(multiset(a[..]))
    ensures a[i + 1..] == old(a[i + 1..])
  {
    var j := i;
    assert AscendingExcept(a[..], i, j, cmp);
    while j > 0 && cmp(a[j - 1], a[j]) == Greater
      invariant 0 <= j <= i
      invariant AscendingExcept(a[..], i, j, cmp)
      invariant multiset(a[..]) == old(multiset(a[..]))
      invariant a[i + 1..] == old(a[i + 1..])
    {
      ghost var before := a[..];
      SwapStep(before, i, j, cmp);
      a[j - 1], a[j] := a[j], a[j - 1];
      assert a[..] == before[j - 1 := before[j]][j := before[j - 1]];
      j := j - 1;
    }
    assert forall k | 0 <= k < i :: Le(a[..][k], a[..][k + 1], cmp);
  }

  /** Sorting in place: insertion sort by adjacent swaps. The result is
      ascending, a permutation of the input, and equal to the reference
      sort of the input. */
  method Sort<T(!new)>(a: array<T>, cmp: (T, T) -> Ordering)
    requires IsComparator(cmp)
    modifies a
    ensures Sorted(a[..], cmp)
    ensures multiset(a[..]) == old(multiset(a[..]))
    ensures a[..] == SortedSeq(old(a[..]), cmp)
  {
    for i := 0 to a.Length
      invariant forall k | 0 <= k < i - 1 :: Le(a[k], a[k + 1], cmp)
      invariant multiset(a[..]) == old(multiset(a[..]))
    {
      InsertNext(a, i, cmp);
    }
    SortedIsReference(a[..], old(a[..]), cmp);
  }
}

/** Quicksort with three partition schemes (src/sorting/quick-sort.ts). */
module QuickSort {
  import opened Permutations

  /** The elements of `s` that are at most `x`, in their order in `s`. */
  function FilterLe(s: seq<int>, x: int): (r: seq<int>)
    ensures |r| <= |s|
    ensures forall k :: 0 <= k < |r| ==> r[k] <= x
  {
    if s == [] then []
    else FilterLe(s[..|s| - 1], x) + (if s[|s| - 1] <= x then [s[|s| - 1]] else [])
  }

  /** The elements of `s` that are greater than `x`, in their order in `s`. */
  function FilterGt(s: seq<int>, x: int): (r: seq<int>)
    ensures |r| <= |s|
    ensures forall k :: 0 <= k < |r| ==> r[k] > x
  {
    if s == [] then []
    else FilterGt(s[..|s| - 1], x) + (if s[|s| - 1] > x then [s[|s| - 1]] else [])
  }

  /** The two groups together hold exactly the elements of `s`. */
  lemma {:induction false} FiltersPartition(s: seq<int>, x: int)
    ensures multiset(FilterLe(s, x) + FilterGt(s, x)) == multiset(s)
    ensures |FilterLe(s, x)| + |FilterGt(s, x)| == |s|
  {
    if s != [] {
      var init, last := s[..|s| - 1], s[|s| - 1];
      FiltersPartition(init, x);
      assert s == init + [last];
    }
  }

  /** `partitionNaive(a, p)`: the pivot `a[p]` is exchanged with the last element, then the
      elements at most the pivot and after them those greater than it are gathered into
      `temp`, each group in array order, and `temp` is copied over `a`. */
  method PartitionNaive(a: array<int>, p: int)
    requires 0 <= p < a.Length
    modifies a
    ensures var s := old(a[..])[p := old(a[a.Length - 1])][a.Length - 1 := old(a[p])];
      a[..] == FilterLe(s, old(a[p])) + FilterGt(s, old(a[p]))
  {
    var n := a.Length;
    Swap(a, p, n - 1);
    ghost var s := a[..];
    assert s == old(a[..])[p := old(a[n - 1])][n - 1 := old(a[p])];
    var x := a[n - 1];
    var temp := CollectLe(a, x);
    temp := CollectGt(a, x, temp);
    FiltersPartition(s, x);
    CopyOver(a, temp);
  }

  /** The first loop of `partitionNaive`: the elements at most `x`, in array order. */
  method CollectLe(a: array<int>, x: int) returns (temp: seq<int>)
    ensures temp == FilterLe(a[..], x)
  {
    temp := [];
    var i := 0;
    while i < a.Length
      invariant 0 <= i <= a.Length
      invariant temp == FilterLe(a[..i], x)
    {
      assert a[..i + 1][..i] == a[..i];
      if a[i] <= x {
        temp := temp + [a[i]];
      }
      i := i + 1;
    }
    assert a[..a.Length] == a[..];
  }

  /** The second loop of `partitionNaive`: appends the elements greater than `x`. */
  method CollectGt(a: array<int>, x: int, temp0: seq<int>) returns (temp: seq<int>)
    ensures temp == temp0 + FilterGt(a[..], x)
  {
    temp := temp0;
    var i := 0;
    while i < a.Length
      invariant 0 <= i <= a.Length
      invariant temp == temp0 + FilterGt(a[..i], x)
    {
      assert a[..i + 1][..i] == a[..i];
      if a[i] > x {
        temp := temp + [a[i]];
      }
      i := i + 1;
    }
    assert a[..a.Length] == a[..];
  }

  /** The third loop of `partitionNaive` (`a.splice(0, n, ...temp)`). */
  method CopyOver(a: array<int>, temp: seq<int>)
    requires |temp| == a.Length
    modifies a
    ensures a[..] == temp
  {
    var i := 0;
    while i < a.Length
      invariant 0 <= i <= a.Length
      invariant a[..i] == temp[..i]
    {
      a[i] := temp[i];
      i := i + 1;
    }
  }

  /** After `partitionNaive` the array is a rearrangement of the input with every element at
      most the pivot in front of every greater one, and the pivot closes the first group. */
  lemma PartitionNaiveSplits(s: seq<int>, x: int)
    requires x in s
    ensures var r := FilterLe(s, x) + FilterGt(s, x);
      multiset(r) == multiset(s) &&
      (forall u, v :: 0 <= u < |FilterLe(s, x)| <= v < |r| ==> r[u] <= x < r[v])
  {
    FiltersPartition(s, x);
  }

  /** The pivot, being the last element, is the last element of the first group. */
  lemma {:induction false} PivotEndsFirstGroup(s: seq<int>)
    requires s != []
    ensures FilterLe(s, s[|s| - 1]) != []
    ensures FilterLe(s, s[|s| - 1])[|FilterLe(s, s[|s| - 1])| - 1] == s[|s| - 1]
  {
  }

  /** The example of `testPartitionNaive`. */
  lemma PartitionNaiveExample()
    ensures FilterLe([10, 8, 2, 5, 4], 4) + FilterGt([10, 8, 2, 5, 4], 4) == [2, 4, 10, 8, 5]
  {
    ExamplePrefixes();
    assert FilterLe([10, 8, 2, 5, 4], 4) == [2, 4];
    assert FilterGt([10, 8, 2, 5, 4], 4) == [10, 8, 5];
  }

  /** The prefixes the filters of `PartitionNaiveExample` take, spelled out. */
  lemma ExamplePrefixes()
    ensures [10, 8, 2, 5, 4][..4] == [10, 8, 2, 5] && [10, 8, 2, 5][..3] == [10, 8, 2]
    ensures [10, 8, 2][..2] == [10, 8] && [10, 8][..1] == [10] && [10][..0] == []
  {
    assert [10, 8, 2, 5, 4][..4] == [10, 8, 2, 5];
    assert [10, 8, 2, 5][..3] == [10, 8, 2];
  }

  /** `partitionLomuto(a, l, h)`: with pivot `a[h]`, moves every element less than the pivot
      to the front of `[l, h]` and the pivot right after them, returning its final index. */
  method PartitionLomuto(a: array<int>, l: int, h: int) returns (p: int)
    requires 0 <= l <= h < a.Length
    modifies a
    ensures l <= p <= h && a[p] == old(a[h])
    ensures forall k :: l <= k < p ==> a[k] < a[p]
    ensures forall k :: p < k <= h ==> a[k] >= a[p]
    ensures PermutedOn(old(a[..]), a[..], l, h + 1)
  {
    var pivot := a[h];
    var i := l - 1;
    var j := l;
    while j < h
      invariant l - 1 <= i < j <= h
      invariant a[h] == pivot
      invariant forall k :: l <= k <= i ==> a[k] < pivot
      invariant forall k :: i < k < j ==> a[k] >= pivot
      invariant multiset(a[..]) == old(multiset(a[..]))
      invariant forall k :: 0 <= k < a.Length && !(l <= k <= h) ==> a[k] == old(a[k])
    {
      if a[j] < pivot {
        i := i + 1;
        Swap(a, j, i);
      }
      j := j + 1;
    }
    Swap(a, i + 1, h);
    p := i + 1;
    MultisetToPermutedOn(old(a[..]), a[..], l, h + 1);
  }

  /** `quickSortLomuto(a, l, h)`: sorts `a[l..h]` (both ends included); a range of fewer
      than two elements is left as it is. */
  method QuickSortLomuto(a: array<int>, l: int, h: int)
    requires l < h ==> 0 <= l && h < a.Length
    modifies a
    ensures l < h ==> PermutedOn(old(a[..]), a[..], l, h + 1) && SortedRange(a[..], l, h + 1)
    ensures l >= h ==> a[..] == old(a[..])
    decreases h - l
  {
    if l < h {
      var p := PartitionLomuto(a, l, h);
      ghost var s1 := a[..];
      QuickSortLomuto(a, l, p - 1);
      ghost var s2 := a[..];
      QuickSortLomuto(a, p + 1, h);
      SortedParts(old(a[..]), s1, s2, a[..], l, p, p + 1, h, s1[p]);
    }
  }

  /** `partitionHoare(a, l, h)`: with pivot `a[l]`, `i` moves right to the next element not
      less than the pivot and `j` moves left to the next element not greater than it;
      the two are exchanged until they cross, and then `j` splits `[l, h]` into a part at
      most the pivot and a part at least the pivot.  Both scans stay inside `[l, h]`. */
  method PartitionHoare(a: array<int>, l: int, h: int) returns (j: int)
    requires 0 <= l <= h < a.Length
    modifies a
    ensures l <= j <= h
    ensures l < h ==> j < h
    ensures forall k :: l <= k <= j ==> a[k] <= old(a[l])
    ensures forall k :: j < k <= h ==> a[k] >= old(a[l])
    ensures PermutedOn(old(a[..]), a[..], l, h + 1)
  {
    var pivot := a[l];
    var i := l - 1;
    j := h + 1;
    // indices where the next scan of `i`, and of `j`, is sure to stop
    ghost var si, sj := l, l;
    while true
      invariant l - 1 <= i < j <= h + 1
      invariant i < si <= h && a[si] >= pivot
      invariant l <= sj < j && a[sj] <= pivot
      invariant forall k :: l <= k <= i ==> a[k] <= pivot
      invariant forall k :: j <= k <= h ==> a[k] >= pivot
      invariant j == h + 1 ==> i == l - 1 && a[l] == pivot
      invariant multiset(a[..]) == old(multiset(a[..]))
      invariant forall k :: 0 <= k < a.Length && !(l <= k <= h) ==> a[k] == old(a[k])
      decreases j - i
    {
      i := ScanRight(a, i + 1, pivot, si);
      j := ScanLeft(a, j - 1, pivot, sj);
      if i >= j {
        MultisetToPermutedOn(old(a[..]), a[..], l, h + 1);
        return;
      }
      Swap(a, i, j);
      si, sj := j, i;
    }
  }

  /** `do { i++ } while (a[i] < pivot)`, from the first increment on: the first index from
      `i0` on whose element is not less than the pivot; `stop` is one such index. */
  method ScanRight(a: array<int>, i0: int, pivot: int, ghost stop: int) returns (i: int)
    requires 0 <= i0 <= stop < a.Length && a[stop] >= pivot
    ensures i0 <= i <= stop && a[i] >= pivot
    ensures forall k :: i0 <= k < i ==> a[k] < pivot
  {
    i := i0;
    while a[i] < pivot
      invariant i0 <= i <= stop
      invariant forall k :: i0 <= k < i ==> a[k] < pivot
      decreases stop - i
    {
      i := i + 1;
    }
  }

  /** `do { j-- } while (a[j] > pivot)`, from the first decrement on: the last index from
      `j0` down whose element is not greater than the pivot; `stop` is one such index. */
  method ScanLeft(a: array<int>, j0: int, pivot: int, ghost stop: int) returns (j: int)
    requires 0 <= stop <= j0 < a.Length && a[stop] <= pivot
    ensures stop <= j <= j0 && a[j] <= pivot
    ensures forall k :: j < k <= j0 ==> a[k] > pivot
  {
    j := j0;
    while a[j] > pivot
      invariant stop <= j <= j0
      invariant forall k :: j < k <= j0 ==> a[k] > pivot
      decreases j - stop
    {
      j := j - 1;
    }
  }

  /** `quickSortHoare(a, l, h)`: sorts `a[l..h]` (both ends included), recursing on
      `[l, p]` and `[p + 1, h]`, both smaller than `[l, h]` since `l <= p < h`. */
  method QuickSortHoare(a: array<int>, l: int, h: int)
    requires l < h ==> 0 <= l && h < a.Length
    modifies a
    ensures l < h ==> PermutedOn(old(a[..]), a[..], l, h + 1) && SortedRange(a[..], l, h + 1)
    ensures l >= h ==> a[..] == old(a[..])
    decreases h - l
  {
    if l < h {
      ghost var pivot := a[l];
      var p := PartitionHoare(a, l, h);
      ghost var s1 := a[..];
      QuickSortHoare(a, l, p);
      ghost var s2 := a[..];
      QuickSortHoare(a, p + 1, h);
      HoareStep(old(a[..]), s1, s2, a[..], l, p, h, pivot);
    }
  }

  /** `SortedParts` for the split of `quickSortHoare`, where the two parts meet at `p`. */
  lemma HoareStep(s0: seq<int>, s1: seq<int>, s2: seq<int>, s3: seq<int>, l: int, p: int, h: int, x: int)
    requires l <= p < h
    requires PermutedOn(s0, s1, l, h + 1)
    requires forall k :: l <= k <= p ==> s1[k] <= x
    requires forall k :: p < k <= h ==> s1[k] >= x
    requires l < p ==> PermutedOn(s1, s2, l, p + 1) && SortedRange(s2, l, p + 1)
    requires l >= p ==> s2 == s1
    requires p + 1 < h ==> PermutedOn(s2, s3, p + 1, h + 1) && SortedRange(s3, p + 1, h + 1)
    requires p + 1 >= h ==> s3 == s2
    ensures PermutedOn(s0, s3, l, h + 1) && SortedRange(s3, l, h + 1)
  {
    SortedParts(s0, s1, s2, s3, l, p + 1, p + 1, h, x);
  }

  /** The proof step shared by both quicksorts: after `[l, h]` has been split into `[l, e)`
      (at most `x`), `[e, b)` (equal to `x`) and `[b, h]` (at least `x`), and `[l, e)` and
      then `[b, h]` have been sorted on their own, `[l, h]` is a sorted rearrangement. */
  lemma SortedParts(s0: seq<int>, s1: seq<int>, s2: seq<int>, s3: seq<int>,
                    l: int, e: int, b: int, h: int, x: int)
    requires l <= e <= b <= h + 1
    requires PermutedOn(s0, s1, l, h + 1)
    requires forall k :: l <= k < e ==> s1[k] <= x
    requires forall k :: e <= k < b ==> s1[k] == x
    requires forall k :: b <= k <= h ==> s1[k] >= x
    requires l < e - 1 ==> PermutedOn(s1, s2, l, e) && SortedRange(s2, l, e)
    requires l >= e - 1 ==> s2 == s1
    requires b < h ==> PermutedOn(s2, s3, b, h + 1) && SortedRange(s3, b, h + 1)
    requires b >= h ==> s3 == s2
    ensures PermutedOn(s0, s3, l, h + 1) && SortedRange(s3, l, h + 1)
  {
    PartsPermuted(s0, s1, s2, s3, l, e, b, h, x);
    PartsSorted(s0, s1, s2, s3, l, e, b, h, x);
  }

  lemma PartsPermuted(s0: seq<int>, s1: seq<int>, s2: seq<int>, s3: seq<int>,
                      l: int, e: int, b: int, h: int, x: int)
    requires l <= e <= b <= h + 1
    requires PermutedOn(s0, s1, l, h + 1)
    requires forall k :: l <= k < e ==> s1[k] <= x
    requires forall k :: e <= k < b ==> s1[k] == x
    requires forall k :: b <= k <= h ==> s1[k] >= x
    requires l < e - 1 ==> PermutedOn(s1, s2, l, e) && SortedRange(s2, l, e)
    requires l >= e - 1 ==> s2 == s1
    requires b < h ==> PermutedOn(s2, s3, b, h + 1) && SortedRange(s3, b, h + 1)
    requires b >= h ==> s3 == s2
    ensures PermutedOn(s0, s3, l, h + 1)
  {
    SortPart(s1, s2, l, e, l, h + 1, x, true);
    SortPart(s2, s3, b, h + 1, l, h + 1, x, false);
    PermutedOnTrans3(s0, s1, s2, s3, l, h + 1);
  }

  lemma PartsSorted(s0: seq<int>, s1: seq<int>, s2: seq<int>, s3: seq<int>,
                    l: int, e: int, b: int, h: int, x: int)
    requires l <= e <= b <= h + 1
    requires PermutedOn(s0, s1, l, h + 1)
    requires forall k :: l <= k < e ==> s1[k] <= x
    requires forall k :: e <= k < b ==> s1[k] == x
    requires forall k :: b <= k <= h ==> s1[k] >= x
    requires l < e - 1 ==> PermutedOn(s1, s2, l, e) && SortedRange(s2, l, e)
    requires l >= e - 1 ==> s2 == s1
    requires b < h ==> PermutedOn(s2, s3, b, h + 1) && SortedRange(s3, b, h + 1)
    requires b >= h ==> s3 == s2
    ensures SortedRange(s3, l, h + 1)
  {
    SortPart(s1, s2, l, e, l, h + 1, x, true);
    SortPart(s2, s3, b, h + 1, l, h + 1, x, false);
    SortedAfterParts(s1, s2, s3, l, e, b, h, x);
  }

  /** Sorting the part `[lo, hi)` of `[l, h)` keeps a bound `x` of that part (an upper
      bound if `upper`, else a lower one), keeps the rest of `[l, h)` and rearranges it;
      a part of fewer than two elements is not touched at all. */
  lemma SortPart(s: seq<int>, t: seq<int>, lo: int, hi: int, l: int, h: int, x: int, upper: bool)
    requires 0 <= l <= lo <= hi <= h <= |s|
    requires upper ==> forall k :: lo <= k < hi ==> s[k] <= x
    requires !upper ==> forall k :: lo <= k < hi ==> s[k] >= x
    requires lo < hi - 1 ==> PermutedOn(s, t, lo, hi) && SortedRange(t, lo, hi)
    requires lo >= hi - 1 ==> t == s
    ensures PermutedOn(s, t, l, h)
    ensures upper ==> forall k :: lo <= k < hi ==> t[k] <= x
    ensures !upper ==> forall k :: lo <= k < hi ==> t[k] >= x
    ensures forall k :: 0 <= k < |s| && !(lo <= k < hi) ==> t[k] == s[k]
    ensures SortedRange(t, lo, hi)
  {
    if lo < hi - 1 {
      PermutedKeepsBounds(s, t, lo, hi, x);
      PermutedOnWiden(s, t, lo, hi, l, h);
      assert forall k :: 0 <= k < lo ==> t[k] == t[..lo][k] == s[..lo][k];
      assert forall k :: hi <= k < |s| ==> t[k] == t[hi..][k - hi] == s[hi..][k - hi];
    } else {
      PermutedOnRefl(s, l, h);
    }
  }

  /** The sortedness half of `SortedParts`. */
  lemma SortedAfterParts(s1: seq<int>, s2: seq<int>, s3: seq<int>, l: int, e: int, b: int, h: int, x: int)
    requires 0 <= l <= e <= b <= h + 1 <= |s1| == |s2| == |s3|
    requires forall k :: e <= k < b ==> s1[k] == x
    requires SortedRange(s2, l, e) && forall k :: l <= k < e ==> s2[k] <= x
    requires forall k :: 0 <= k < |s1| && !(l <= k < e) ==> s2[k] == s1[k]
    requires SortedRange(s3, b, h + 1) && forall k :: b <= k <= h ==> s3[k] >= x
    requires forall k :: 0 <= k < |s1| && !(b <= k <= h) ==> s3[k] == s2[k]
    ensures SortedRange(s3, l, h + 1)
  {
    assert forall k :: l <= k < e ==> s3[k] == s2[k];
    SortedThree(s3, l, e, b, h, x);
  }

  /** A sorted part at most `x`, a part equal to `x` and a sorted part at least `x`, one
      after the other, make a sorted range. */
  lemma SortedThree(s: seq<int>, l: int, e: int, b: int, h: int, x: int)
    requires 0 <= l <= e <= b <= h + 1 <= |s|
    requires SortedRange(s, l, e) && SortedRange(s, b, h + 1)
    requires forall k :: l <= k < e ==> s[k] <= x
    requires forall k :: e <= k < b ==> s[k] == x
    requires forall k :: b <= k <= h ==> s[k] >= x
    ensures SortedRange(s, l, h + 1)
  {
    forall u, v | l <= u < v <= h
      ensures s[u] <= s[v]
    {
      if v < e || b <= u {
      } else {
        assert s[u] <= x <= s[v];
      }
    }
  }
}

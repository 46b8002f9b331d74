/** Merging of sorted runs and merge sort (src/sorting/merge-sort.py and its twin
    src/sorting/merge-sort.ts, which share this model). */
module MergeSort {
  import opened Permutations

  /** `xs[i..]` merged with `ys[j..]`: the smaller head goes first; on equal heads the head
      of `xs` goes first when `leftFirst` holds and the head of `ys` otherwise. */
  function MergedFrom(xs: seq<int>, ys: seq<int>, i: int, j: int, leftFirst: bool): (r: seq<int>)
    requires 0 <= i <= |xs| && 0 <= j <= |ys|
    ensures |r| == |xs| - i + |ys| - j
    decreases |xs| - i + |ys| - j
  {
    if i == |xs| then ys[j..]
    else if j == |ys| then xs[i..]
    else if xs[i] < ys[j] || (leftFirst && xs[i] == ys[j]) then [xs[i]] + MergedFrom(xs, ys, i + 1, j, leftFirst)
    else [ys[j]] + MergedFrom(xs, ys, i, j + 1, leftFirst)
  }

  /** The merge of `merge_lists`/`mergeLists`, which takes from `b` on ties, is
      `Merged(a, b, false)`; the merge of the in-place `merge`, which takes from the left run
      on ties, is `Merged(left, right, true)`. */
  function Merged(xs: seq<int>, ys: seq<int>, leftFirst: bool): (r: seq<int>)
    ensures |r| == |xs| + |ys|
  {
    MergedFrom(xs, ys, 0, 0, leftFirst)
  }

  /** A merge holds exactly the elements still to be merged. */
  lemma {:induction false} MergedFromPermutes(xs: seq<int>, ys: seq<int>, i: int, j: int, leftFirst: bool)
    requires 0 <= i <= |xs| && 0 <= j <= |ys|
    ensures multiset(MergedFrom(xs, ys, i, j, leftFirst)) == multiset(xs[i..]) + multiset(ys[j..])
    decreases |xs| - i + |ys| - j
  {
    if i < |xs| && j < |ys| {
      assert xs[i..] == [xs[i]] + xs[i + 1..];
      assert ys[j..] == [ys[j]] + ys[j + 1..];
      if xs[i] < ys[j] || (leftFirst && xs[i] == ys[j]) {
        MergedFromPermutes(xs, ys, i + 1, j, leftFirst);
      } else {
        MergedFromPermutes(xs, ys, i, j + 1, leftFirst);
      }
    } else if i == |xs| {
      assert xs[i..] == [];
    } else {
      assert ys[j..] == [];
    }
  }

  /** Either merge holds exactly the elements of both inputs. */
  lemma MergedPermutes(xs: seq<int>, ys: seq<int>, leftFirst: bool)
    ensures multiset(Merged(xs, ys, leftFirst)) == multiset(xs + ys)
  {
    MergedFromPermutes(xs, ys, 0, 0, leftFirst);
    assert xs[0..] == xs && ys[0..] == ys;
  }

  /** `x` in front of an ascending `r` made of elements of `p` and `q`, all at least `x`,
      gives an ascending sequence. */
  lemma ConsSorted(x: int, r: seq<int>, p: seq<int>, q: seq<int>)
    requires Sorted(r) && multiset(r) == multiset(p) + multiset(q)
    requires forall k :: 0 <= k < |p| ==> x <= p[k]
    requires forall k :: 0 <= k < |q| ==> x <= q[k]
    ensures Sorted([x] + r)
  {
    forall k | 0 <= k < |r| ensures x <= r[k] {
      assert r[k] in multiset(r);
      if r[k] in multiset(p) {
        assert r[k] in p;
      } else {
        assert r[k] in q;
      }
    }
  }

  /** The rest of an ascending sequence is ascending. */
  lemma SortedSuffix(s: seq<int>, i: int)
    requires Sorted(s) && 0 <= i <= |s|
    ensures Sorted(s[i..])
  {
    forall u, v | 0 <= u < v < |s| - i ensures s[i..][u] <= s[i..][v] {
      assert s[i..][u] == s[i + u] && s[i..][v] == s[i + v];
    }
  }

  /** Merging two ascending runs gives an ascending run, with either tie rule. */
  lemma {:induction false} MergedFromSorted(xs: seq<int>, ys: seq<int>, i: int, j: int, leftFirst: bool)
    requires 0 <= i <= |xs| && 0 <= j <= |ys| && Sorted(xs) && Sorted(ys)
    ensures Sorted(MergedFrom(xs, ys, i, j, leftFirst))
    decreases |xs| - i + |ys| - j
  {
    if i == |xs| {
      SortedSuffix(ys, j);
    } else if j == |ys| {
      SortedSuffix(xs, i);
    } else if xs[i] < ys[j] || (leftFirst && xs[i] == ys[j]) {
      MergedFromSorted(xs, ys, i + 1, j, leftFirst);
      MergedFromPermutes(xs, ys, i + 1, j, leftFirst);
      ConsSorted(xs[i], MergedFrom(xs, ys, i + 1, j, leftFirst), xs[i + 1..], ys[j..]);
    } else {
      MergedFromSorted(xs, ys, i, j + 1, leftFirst);
      MergedFromPermutes(xs, ys, i, j + 1, leftFirst);
      ConsSorted(ys[j], MergedFrom(xs, ys, i, j + 1, leftFirst), xs[i..], ys[j + 1..]);
    }
  }

  /** On ascending inputs both tie rules give the same result, and it is the one ascending
      arrangement of `xs + ys`, the result of `merge_naive` (concatenate, then sort). */
  lemma MergesAgree(xs: seq<int>, ys: seq<int>, sorted: seq<int>)
    requires Sorted(xs) && Sorted(ys)
    requires Sorted(sorted) && multiset(sorted) == multiset(xs + ys)
    ensures Merged(xs, ys, false) == sorted && Merged(xs, ys, true) == sorted
  {
    MergedFromSorted(xs, ys, 0, 0, false);
    MergedFromSorted(xs, ys, 0, 0, true);
    MergedPermutes(xs, ys, false);
    MergedPermutes(xs, ys, true);
    SortedUnique(Merged(xs, ys, false), sorted);
    SortedUnique(Merged(xs, ys, true), sorted);
  }

  /** Once one input is used up, the merge is the rest of the other. */
  lemma MergedRest(xs: seq<int>, ys: seq<int>, i: int, j: int, leftFirst: bool)
    requires 0 <= i <= |xs| && 0 <= j <= |ys| && (i == |xs| || j == |ys|)
    ensures MergedFrom(xs, ys, i, j, leftFirst) == xs[i..] + ys[j..]
  {
    if i == |xs| {
      assert xs[i..] == [];
    } else {
      assert ys[j..] == [];
    }
  }

  /** `merge_lists(a, b)`: repeatedly moves the smaller head (the head of `b` on ties) to
      `res`, then appends what is left of `a` and of `b`. */
  method MergeLists(a: seq<int>, b: seq<int>) returns (res: seq<int>)
    ensures res == Merged(a, b, false)
  {
    res := [];
    var i, j := 0, 0;
    while i < |a| && j < |b|
      invariant 0 <= i <= |a| && 0 <= j <= |b|
      invariant res + MergedFrom(a, b, i, j, false) == Merged(a, b, false)
    {
      ghost var rest := MergedFrom(a, b, i, j, false);
      if a[i] < b[j] {
        assert rest == [a[i]] + MergedFrom(a, b, i + 1, j, false);
        assert res + rest == (res + [a[i]]) + MergedFrom(a, b, i + 1, j, false);
        res := res + [a[i]];
        i := i + 1;
      } else {
        assert rest == [b[j]] + MergedFrom(a, b, i, j + 1, false);
        assert res + rest == (res + [b[j]]) + MergedFrom(a, b, i, j + 1, false);
        res := res + [b[j]];
        j := j + 1;
      }
    }
    MergedRest(a, b, i, j, false);
    res := res + a[i..];
    res := res + b[j..];
  }

  /** `s` is `s0` with `m[..k - low]` written from index `low` on, and nothing else changed. */
  ghost predicate Written(s: seq<int>, s0: seq<int>, m: seq<int>, low: int, k: int) {
    |s| == |s0| && 0 <= low <= k <= low + |m| <= |s0| &&
    forall t :: 0 <= t < |s0| ==> s[t] == if low <= t < k then m[t - low] else s0[t]
  }

  /** Once all of `m` is written, `s` is `m` spliced into `s0`. */
  lemma WrittenSpliced(s: seq<int>, s0: seq<int>, m: seq<int>, low: int)
    requires Written(s, s0, m, low, low + |m|)
    ensures s == s0[..low] + m + s0[low + |m|..]
  {
    var r := s0[..low] + m + s0[low + |m|..];
    forall t | 0 <= t < |s| ensures s[t] == r[t] {
      if t < low {
        assert r[t] == s0[t];
      } else if t < low + |m| {
        assert r[t] == m[t - low];
      } else {
        assert r[t] == s0[t];
      }
    }
  }

  /** Once a run is used up, the rest of the merge is the rest of `left` then the rest of
      `right`, index by index. */
  lemma MergedTail(left: seq<int>, right: seq<int>, i: int, j: int, m: seq<int>)
    requires 0 <= i <= |left| && 0 <= j <= |right| && (i == |left| || j == |right|)
    requires |m| == |left| + |right| && m[i + j..] == MergedFrom(left, right, i, j, true)
    ensures forall u :: i + j <= u < |left| + j ==> m[u] == left[u - j]
    ensures forall u :: |left| + j <= u < |m| ==> m[u] == right[u - |left|]
  {
    MergedRest(left, right, i, j, true);
    var tail := left[i..] + right[j..];
    assert m[i + j..] == tail;
    forall u | i + j <= u < |m| ensures m[u] == tail[u - i - j] {
      assert m[u] == m[i + j..][u - i - j];
    }
  }

  /** `merge(a, low, mid, high)`: copies `a[low..mid]` to `left` and `a[mid + 1..high]` to
      `right` (both ends included) and writes their merge back over `a[low..high]`, taking
      from `left` on ties; every write index stays inside `[low, high]`. */
  method Merge(a: array<int>, low: int, mid: int, high: int)
    requires 0 <= low <= mid + 1 <= high + 1 <= a.Length
    modifies a
    ensures a[..] == old(a[..low]) + Merged(old(a[low..mid + 1]), old(a[mid + 1..high + 1]), true) + old(a[high + 1..])
  {
    var left, right := a[low..mid + 1], a[mid + 1..high + 1];
    ghost var s0 := a[..];
    ghost var m := Merged(left, right, true);
    var i, j := MergeHeads(a, left, right, low, s0, m);
    MergedTail(left, right, i, j, m);
    CopyRest(a, left, i, low + i + j, s0, m, low);
    CopyRest(a, right, j, low + |left| + j, s0, m, low);
    WrittenSpliced(a[..], s0, m, low);
    assert s0[..low] == old(a[..low]) && s0[high + 1..] == old(a[high + 1..]);
  }

  /** The first loop of `merge`: while both runs have elements, the smaller head (the left
      one on ties) is written at `a[k]`, `k` running up from `low`.  It stops with one run
      used up, having written the first `i + j` elements of the merge `m`, and the rest of
      `m` is the merge of what remains. */
  method MergeHeads(a: array<int>, left: seq<int>, right: seq<int>, low: int, ghost s0: seq<int>, ghost m: seq<int>)
    returns (i: int, j: int)
    requires m == Merged(left, right, true) && Written(a[..], s0, m, low, low)
    modifies a
    ensures 0 <= i <= |left| && 0 <= j <= |right| && (i == |left| || j == |right|)
    ensures Written(a[..], s0, m, low, low + i + j)
    ensures m[i + j..] == MergedFrom(left, right, i, j, true)
  {
    i, j := 0, 0;
    var k := low;
    assert m[0..] == m;
    while i < |left| && j < |right|
      invariant 0 <= i <= |left| && 0 <= j <= |right| && k == low + i + j
      invariant Written(a[..], s0, m, low, k)
      invariant m[i + j..] == MergedFrom(left, right, i, j, true)
    {
      assert m[i + j..][0] == m[i + j] && m[i + j..][1..] == m[i + j + 1..];
      if left[i] <= right[j] {
        a[k] := left[i];
        i := i + 1;
      } else {
        a[k] := right[j];
        j := j + 1;
      }
      k := k + 1;
    }
  }

  /** The second and third loops of `merge`: `src[i..]`, which is the part of the merge `m`
      from `k - low` on, is written to `a` from index `k` on. */
  method CopyRest(a: array<int>, src: seq<int>, i: int, k: int, ghost s0: seq<int>, ghost m: seq<int>, ghost low: int)
    requires 0 <= i <= |src| && k + |src| - i <= low + |m|
    requires Written(a[..], s0, m, low, k)
    requires forall u :: k - low <= u < k - low + |src| - i ==> m[u] == src[u - k + low + i]
    modifies a
    ensures Written(a[..], s0, m, low, k + |src| - i)
  {
    var i', k' := i, k;
    while i' < |src|
      invariant i <= i' <= |src| && k' == k + i' - i
      invariant Written(a[..], s0, m, low, k')
    {
      a[k'] := src[i'];
      i' := i' + 1;
      k' := k' + 1;
    }
  }

  /** `merge_sort(a, l, r)`: sorts `a[l..r]` (both ends included) by sorting its halves
      `[l, m]` and `[m + 1, r]` with `m` the floor of the midpoint, then merging them; both
      halves are smaller than `[l, r]` since `l <= m < r`.  A range of fewer than two
      elements is left as it is. */
  method MergeSort(a: array<int>, l: int, r: int)
    requires r > l ==> 0 <= l && r < a.Length
    modifies a
    ensures r > l ==> PermutedOn(old(a[..]), a[..], l, r + 1) && SortedRange(a[..], l, r + 1)
    ensures r <= l ==> a[..] == old(a[..])
    decreases r - l
  {
    if r > l {
      var m := (r + l) / 2;
      MergeSort(a, l, m);
      ghost var s1 := a[..];
      MergeSort(a, m + 1, r);
      ghost var s2 := a[..];
      Merge(a, l, m, r);
      MergeSortStep(old(a[..]), s1, s2, a[..], l, m, r);
    }
  }

  /** The proof of `MergeSort`'s step: sorted halves merged give a sorted rearrangement. */
  lemma MergeSortStep(s0: seq<int>, s1: seq<int>, s2: seq<int>, s3: seq<int>, l: int, m: int, r: int)
    requires 0 <= l <= m < r < |s0|
    requires l < m ==> PermutedOn(s0, s1, l, m + 1) && SortedRange(s1, l, m + 1)
    requires l >= m ==> s1 == s0
    requires m + 1 < r ==> PermutedOn(s1, s2, m + 1, r + 1) && SortedRange(s2, m + 1, r + 1)
    requires m + 1 >= r ==> s2 == s1
    requires s3 == s2[..l] + Merged(s2[l..m + 1], s2[m + 1..r + 1], true) + s2[r + 1..]
    ensures PermutedOn(s0, s3, l, r + 1) && SortedRange(s3, l, r + 1)
  {
    MergeSpliced(s2, s3, l, m, r);
    HalvesPermuted(s0, s1, s2, s3, l, m, r);
    HalvesSorted(s0, s1, s2, l, m, r);
    MergedSorted(s2, s3, l, m, r);
  }

  lemma HalvesPermuted(s0: seq<int>, s1: seq<int>, s2: seq<int>, s3: seq<int>, l: int, m: int, r: int)
    requires 0 <= l <= m < r < |s0|
    requires l < m ==> PermutedOn(s0, s1, l, m + 1)
    requires l >= m ==> s1 == s0
    requires m + 1 < r ==> PermutedOn(s1, s2, m + 1, r + 1)
    requires m + 1 >= r ==> s2 == s1
    requires PermutedOn(s2, s3, l, r + 1)
    ensures PermutedOn(s0, s3, l, r + 1)
  {
    if l < m {
      PermutedOnWiden(s0, s1, l, m + 1, l, r + 1);
    } else {
      PermutedOnRefl(s0, l, r + 1);
    }
    if m + 1 < r {
      PermutedOnWiden(s1, s2, m + 1, r + 1, l, r + 1);
    } else {
      PermutedOnRefl(s1, l, r + 1);
    }
    PermutedOnTrans3(s0, s1, s2, s3, l, r + 1);
  }

  /** Writing the merge of the two halves over `[l, r]` permutes that range. */
  lemma MergeSpliced(s2: seq<int>, s3: seq<int>, l: int, m: int, r: int)
    requires 0 <= l <= m < r < |s2|
    requires s3 == s2[..l] + Merged(s2[l..m + 1], s2[m + 1..r + 1], true) + s2[r + 1..]
    ensures PermutedOn(s2, s3, l, r + 1)
  {
    MergedPermutes(s2[l..m + 1], s2[m + 1..r + 1], true);
    assert s2[l..r + 1] == s2[l..m + 1] + s2[m + 1..r + 1];
    SplicePermutes(s2, s3, l, r + 1, Merged(s2[l..m + 1], s2[m + 1..r + 1], true));
  }

  /** Replacing `s[lo..hi]` by a rearrangement of it permutes `s` on `[lo, hi)`. */
  lemma SplicePermutes(s: seq<int>, t: seq<int>, lo: int, hi: int, w: seq<int>)
    requires 0 <= lo <= hi <= |s| && |w| == hi - lo && multiset(w) == multiset(s[lo..hi])
    requires t == s[..lo] + w + s[hi..]
    ensures PermutedOn(s, t, lo, hi)
  {
    assert t[..lo] == s[..lo];
    assert t[lo..hi] == w;
    assert t[hi..] == s[hi..];
  }

  /** Both halves are sorted when `merge` is called. */
  lemma HalvesSorted(s0: seq<int>, s1: seq<int>, s2: seq<int>, l: int, m: int, r: int)
    requires 0 <= l <= m < r < |s0| == |s1| == |s2|
    requires l < m ==> SortedRange(s1, l, m + 1)
    requires m + 1 < r ==> PermutedOn(s1, s2, m + 1, r + 1) && SortedRange(s2, m + 1, r + 1)
    requires m + 1 >= r ==> s2 == s1
    ensures Sorted(s2[l..m + 1]) && Sorted(s2[m + 1..r + 1])
  {
    if m + 1 < r {
      assert s2[..m + 1] == s1[..m + 1];
      assert forall k :: l <= k <= m ==> s2[k] == s2[..m + 1][k] == s1[k];
    }
    var left, right := s2[l..m + 1], s2[m + 1..r + 1];
    if l < m {
      assert forall u :: 0 <= u < |left| ==> left[u] == s2[l + u];
    }
    if m + 1 < r {
      assert forall u :: 0 <= u < |right| ==> right[u] == s2[m + 1 + u];
    }
  }

  lemma MergedSorted(s2: seq<int>, s3: seq<int>, l: int, m: int, r: int)
    requires 0 <= l <= m < r < |s2|
    requires Sorted(s2[l..m + 1]) && Sorted(s2[m + 1..r + 1])
    requires s3 == s2[..l] + Merged(s2[l..m + 1], s2[m + 1..r + 1], true) + s2[r + 1..]
    ensures SortedRange(s3, l, r + 1)
  {
    var left, right := s2[l..m + 1], s2[m + 1..r + 1];
    MergedFromSorted(left, right, 0, 0, true);
    assert forall k :: l <= k <= r ==> s3[k] == Merged(left, right, true)[k - l];
  }
}

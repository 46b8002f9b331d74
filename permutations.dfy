/** Orderedness and "permuted within a range", shared by the in-place sorting algorithms
    of src/sorting and the heap sort of src/trees/heap.py. */
module Permutations {

  /** Ascending (non-decreasing) order. */
  ghost predicate Sorted(s: seq<int>) {
    forall i, j :: 0 <= i < j < |s| ==> s[i] <= s[j]
  }

  /** `s1` is `s0` with only the elements of the half-open range `[lo, hi)` rearranged. */
  ghost predicate PermutedOn(s0: seq<int>, s1: seq<int>, lo: int, hi: int) {
    0 <= lo <= hi <= |s0| == |s1| &&
    s0[..lo] == s1[..lo] && s0[hi..] == s1[hi..] &&
    multiset(s0[lo..hi]) == multiset(s1[lo..hi])
  }

  lemma PermutedOnRefl(s: seq<int>, lo: int, hi: int)
    requires 0 <= lo <= hi <= |s|
    ensures PermutedOn(s, s, lo, hi)
  {
  }

  lemma PermutedOnTrans(s0: seq<int>, s1: seq<int>, s2: seq<int>, lo: int, hi: int)
    requires PermutedOn(s0, s1, lo, hi) && PermutedOn(s1, s2, lo, hi)
    ensures PermutedOn(s0, s2, lo, hi)
  {
  }

  lemma PermutedOnTrans3(s0: seq<int>, s1: seq<int>, s2: seq<int>, s3: seq<int>, lo: int, hi: int)
    requires PermutedOn(s0, s1, lo, hi) && PermutedOn(s1, s2, lo, hi) && PermutedOn(s2, s3, lo, hi)
    ensures PermutedOn(s0, s3, lo, hi)
  {
  }

  /** Rearranging `[lo, hi)` rearranges every range that contains it. */
  lemma {:induction false} PermutedOnWiden(s0: seq<int>, s1: seq<int>, lo: int, hi: int, lo': int, hi': int)
    requires PermutedOn(s0, s1, lo, hi)
    requires 0 <= lo' <= lo && hi <= hi' <= |s0|
    ensures PermutedOn(s0, s1, lo', hi')
  {
    assert s0[lo'..hi'] == s0[lo'..lo] + s0[lo..hi] + s0[hi..hi'];
    assert s1[lo'..hi'] == s1[lo'..lo] + s1[lo..hi] + s1[hi..hi'];
    assert s0[lo'..lo] == s0[..lo][lo'..] && s1[lo'..lo] == s1[..lo][lo'..];
    assert s0[hi..hi'] == s0[hi..][..hi' - hi] && s1[hi..hi'] == s1[hi..][..hi' - hi];
    assert s0[..lo'] == s0[..lo][..lo'] && s1[..lo'] == s1[..lo][..lo'];
    assert s0[hi'..] == s0[hi..][hi' - hi..] && s1[hi'..] == s1[hi..][hi' - hi..];
  }

  /** Rearranging a range rearranges the whole sequence. */
  lemma PermutedOnWhole(s0: seq<int>, s1: seq<int>, lo: int, hi: int)
    requires PermutedOn(s0, s1, lo, hi)
    ensures multiset(s0) == multiset(s1)
  {
    assert s0 == s0[..lo] + s0[lo..hi] + s0[hi..];
    assert s1 == s1[..lo] + s1[lo..hi] + s1[hi..];
  }

  /** Ascending order within `[lo, hi)`. */
  ghost predicate SortedRange(s: seq<int>, lo: int, hi: int) {
    forall u, v :: lo <= u < v < hi && 0 <= u && v < |s| ==> s[u] <= s[v]
  }

  /** A rearrangement of the whole sequence that leaves everything outside `[lo, hi)` in
      place rearranges `[lo, hi)`. */
  lemma MultisetToPermutedOn(s0: seq<int>, s1: seq<int>, lo: int, hi: int)
    requires 0 <= lo <= hi <= |s0| == |s1|
    requires multiset(s0) == multiset(s1)
    requires forall k :: 0 <= k < |s0| && !(lo <= k < hi) ==> s0[k] == s1[k]
    ensures PermutedOn(s0, s1, lo, hi)
  {
    assert s0[..lo] == s1[..lo];
    assert s0[hi..] == s1[hi..];
    assert s0 == s0[..lo] + s0[lo..hi] + s0[hi..];
    assert s1 == s1[..lo] + s1[lo..hi] + s1[hi..];
    assert multiset(s0) == multiset(s0[..lo]) + multiset(s0[lo..hi]) + multiset(s0[hi..]);
    assert multiset(s1) == multiset(s1[..lo]) + multiset(s1[lo..hi]) + multiset(s1[hi..]);
    assert multiset(s0[lo..hi]) == multiset(s0) - multiset(s0[..lo]) - multiset(s0[hi..]);
    assert multiset(s1[lo..hi]) == multiset(s1) - multiset(s1[..lo]) - multiset(s1[hi..]);
  }

  /** Exchanging two elements inside `[lo, hi)` rearranges `[lo, hi)`. */
  lemma SwapPermutes(s: seq<int>, i: int, j: int, lo: int, hi: int)
    requires 0 <= lo <= i < hi <= |s| && lo <= j < hi
    ensures PermutedOn(s, s[i := s[j]][j := s[i]], lo, hi)
  {
    var t := s[i := s[j]][j := s[i]];
    assert t[lo..hi] == s[lo..hi][i - lo := s[j]][j - lo := s[i]];
    assert t[..lo] == s[..lo];
    assert t[hi..] == s[hi..];
  }

  /** A rearrangement of `[lo, hi)` keeps every bound that all of the range obeyed. */
  lemma PermutedKeepsBounds(s0: seq<int>, s1: seq<int>, lo: int, hi: int, x: int)
    requires PermutedOn(s0, s1, lo, hi)
    ensures (forall k :: lo <= k < hi ==> s0[k] < x) ==> (forall k :: lo <= k < hi ==> s1[k] < x)
    ensures (forall k :: lo <= k < hi ==> s0[k] <= x) ==> (forall k :: lo <= k < hi ==> s1[k] <= x)
    ensures (forall k :: lo <= k < hi ==> s0[k] >= x) ==> (forall k :: lo <= k < hi ==> s1[k] >= x)
  {
    forall k | lo <= k < hi
      ensures s1[k] in multiset(s0[lo..hi])
    {
      assert s1[k] == s1[lo..hi][k - lo];
    }
    forall k | lo <= k < hi
      ensures exists m :: lo <= m < hi && s0[m] == s1[k]
    {
      assert s1[k] in multiset(s0[lo..hi]);
      var m :| 0 <= m < hi - lo && s0[lo..hi][m] == s1[k];
      assert s0[lo + m] == s1[k];
    }
  }

  /** Two ascending sequences with the same elements are equal. */
  lemma {:induction false} SortedUnique(s: seq<int>, t: seq<int>)
    requires Sorted(s) && Sorted(t) && multiset(s) == multiset(t)
    ensures s == t
    decreases |s|
  {
    if s == [] {
      assert |t| == |multiset(t)| == 0;
    } else {
      assert |t| == |multiset(t)| == |multiset(s)| == |s|;
      SortedHeads(s, t);
      DropHead(s);
      DropHead(t);
      SortedUnique(s[1..], t[1..]);
      assert s == [s[0]] + s[1..] && t == [t[0]] + t[1..];
    }
  }

  /** Two non-empty ascending sequences with the same elements have the same least one. */
  lemma SortedHeads(s: seq<int>, t: seq<int>)
    requires Sorted(s) && Sorted(t) && multiset(s) == multiset(t) && s != [] && t != []
    ensures s[0] == t[0]
  {
    assert s[0] in multiset(s);
    assert s[0] in t;
    assert t[0] in multiset(t);
    assert t[0] in s;
    LeastOfSorted(s, t[0]);
    LeastOfSorted(t, s[0]);
  }

  lemma LeastOfSorted(s: seq<int>, v: int)
    requires Sorted(s) && v in s
    ensures s[0] <= v
  {
  }

  lemma DropHead(s: seq<int>)
    requires s != []
    ensures multiset(s[1..]) == multiset(s) - multiset{s[0]}
    ensures Sorted(s) ==> Sorted(s[1..])
  {
    assert s == [s[0]] + s[1..];
  }

  /** Exchanges `a[i]` and `a[j]`, which keeps the multiset of the array. */
  method Swap(a: array<int>, i: int, j: int)
    requires 0 <= i < a.Length && 0 <= j < a.Length
    modifies a
    ensures a[i] == old(a[j]) && a[j] == old(a[i])
    ensures forall k :: 0 <= k < a.Length && k != i && k != j ==> a[k] == old(a[k])
    ensures multiset(a[..]) == old(multiset(a[..]))
  {
    a[i], a[j] := a[j], a[i];
  }

  /** Exchanges `a[i]` and `a[j]` inside `[lo, hi)`, which rearranges only that range. */
  method SwapIn(a: array<int>, i: int, j: int, ghost lo: int, ghost hi: int)
    requires 0 <= lo <= i < hi <= a.Length && lo <= j < hi
    modifies a
    ensures a[i] == old(a[j]) && a[j] == old(a[i])
    ensures forall k :: 0 <= k < a.Length && k != i && k != j ==> a[k] == old(a[k])
    ensures PermutedOn(old(a[..]), a[..], lo, hi)
  {
    SwapPermutes(a[..], i, j, lo, hi);
    a[i], a[j] := a[j], a[i];
  }
}

/** Bubble, selection and insertion sort working in place on an array
    (src/sorting/basic-sorts.py and its twin src/sorting/basic-sorts.ts). */
module BasicSorts {
  import opened Permutations

  /** One pass of bubble sort: compare-and-swap `a[j]`, `a[j + 1]` for `j` in `[0, limit)`.
      The largest element of `a[..limit + 1]` ends at `a[limit]`, nothing after `limit`
      moves, an upper bound of the range stays one, and a pass without swaps changes
      nothing and finds `a[..limit + 1]` already sorted. */
  method BubblePass(a: array<int>, limit: int, ghost bound: int) returns (swapped: bool)
    requires 0 <= limit < a.Length
    requires limit + 1 < a.Length ==> forall k :: 0 <= k <= limit ==> a[k] <= bound
    modifies a
    ensures multiset(a[..]) == old(multiset(a[..]))
    ensures forall k :: limit < k < a.Length ==> a[k] == old(a[k])
    ensures forall k :: 0 <= k <= limit ==> a[k] <= a[limit]
    ensures limit + 1 < a.Length ==> forall k :: 0 <= k <= limit ==> a[k] <= bound
    ensures !swapped ==> forall k :: 0 <= k < a.Length ==> a[k] == old(a[k])
    ensures !swapped ==> forall p, q :: 0 <= p < q <= limit ==> a[p] <= a[q]
  {
    swapped := false;
    var j := 0;
    while j < limit
      invariant 0 <= j <= limit
      invariant multiset(a[..]) == old(multiset(a[..]))
      invariant forall k :: 0 <= k <= j ==> a[k] <= a[j]
      invariant forall k :: j < k < a.Length ==> a[k] == old(a[k])
      invariant limit + 1 < a.Length ==> forall k :: 0 <= k <= limit ==> a[k] <= bound
      invariant !swapped ==> forall k :: 0 <= k < a.Length ==> a[k] == old(a[k])
      invariant !swapped ==> forall p, q :: 0 <= p < q <= j ==> a[p] <= a[q]
    {
      if a[j] > a[j + 1] {
        Swap(a, j, j + 1);
        swapped := true;
      } else {
        assert forall k :: 0 <= k <= j ==> a[k] <= a[j + 1];
      }
      j := j + 1;
    }
  }

  /** `bubble_sort(l)`: at most `n - 1` passes, pass `i` stopping before the `i` elements
      already in place, and an early return after a pass without swaps. */
  method BubbleSort(a: array<int>)
    modifies a
    ensures Sorted(a[..])
    ensures multiset(a[..]) == old(multiset(a[..]))
  {
    var n := a.Length;
    var i := 0;
    while i < n - 1
      invariant 0 <= i <= if n == 0 then 0 else n - 1
      invariant multiset(a[..]) == old(multiset(a[..]))
      invariant forall p, q :: n - i <= p < q < n ==> a[p] <= a[q]
      invariant forall p, q :: 0 <= p < n - i <= q < n ==> a[p] <= a[q]
    {
      var swapped := BubblePass(a, n - i - 1, if i == 0 then 0 else a[n - i]);
      if !swapped {
        return;
      }
      i := i + 1;
    }
  }

  /** `bubbleSort(a)`: as `BubbleSort`, but the outer loop allows `n` passes, the last of
      which compares nothing and always ends the sort with `break`. */
  method BubbleSortNPasses(a: array<int>)
    modifies a
    ensures Sorted(a[..])
    ensures multiset(a[..]) == old(multiset(a[..]))
  {
    var n := a.Length;
    var i := 0;
    while i < n
      invariant 0 <= i <= n
      invariant multiset(a[..]) == old(multiset(a[..]))
      invariant forall p, q :: n - i <= p < q < n ==> a[p] <= a[q]
      invariant forall p, q :: 0 <= p < n - i <= q < n ==> a[p] <= a[q]
    {
      var swapped := BubblePass(a, n - i - 1, if i == 0 then 0 else a[n - i]);
      if !swapped {
        break;
      }
      i := i + 1;
    }
  }

  /** `selection_sort(l)`: for each `i < n - 1`, find the index of the least element of
      `l[i..]` (the first one on ties) and exchange it with `l[i]`. */
  method SelectionSort(a: array<int>)
    modifies a
    ensures Sorted(a[..])
    ensures multiset(a[..]) == old(multiset(a[..]))
  {
    var n := a.Length;
    var i := 0;
    while i < n - 1
      invariant 0 <= i <= if n == 0 then 0 else n - 1
      invariant multiset(a[..]) == old(multiset(a[..]))
      invariant forall p, q :: 0 <= p < q < i ==> a[p] <= a[q]
      invariant forall p, q :: 0 <= p < i <= q < n ==> a[p] <= a[q]
    {
      var min := i;
      var j := i + 1;
      while j < n
        invariant i < j <= n && i <= min < j
        invariant forall k :: i <= k < j ==> a[min] <= a[k]
      {
        if a[j] < a[min] {
          min := j;
        }
        j := j + 1;
      }
      Swap(a, i, min);
      i := i + 1;
    }
  }

  /** `insertion_sort(l)`: for each `i`, shift the elements of the sorted prefix that are
      greater than `x = l[i]` one place right and drop `x` into the gap. */
  method InsertionSort(a: array<int>)
    modifies a
    ensures Sorted(a[..])
    ensures multiset(a[..]) == old(multiset(a[..]))
  {
    var n := a.Length;
    var i := 1;
    while i < n
      invariant n == 0 || 1 <= i <= n
      invariant multiset(a[..]) == old(multiset(a[..]))
      invariant forall p, q :: 0 <= p < q < i && q < n ==> a[p] <= a[q]
    {
      ghost var before := a[..];
      var p := Insert(a, i);
      InsertionStep(before, a[..], i, p);
      i := i + 1;
    }
  }

  /** The body of the outer loop of `insertion_sort`: `x = l[i]` moves down to the returned
      position `p`, the elements of `l[p..i]`, all greater than `x`, moving up by one, and
      the element before `p`, if any, is at most `x`. */
  method Insert(a: array<int>, i: int) returns (p: int)
    requires 0 < i < a.Length
    modifies a
    ensures 0 <= p <= i
    ensures forall k :: 0 <= k < p ==> a[k] == old(a[k])
    ensures a[p] == old(a[i])
    ensures forall k :: p < k <= i ==> a[k] == old(a[k - 1]) && old(a[i]) < a[k]
    ensures forall k :: i < k < a.Length ==> a[k] == old(a[k])
    ensures p > 0 ==> a[p - 1] <= old(a[i])
  {
    var x := a[i];
    var j := i - 1;
    while j >= 0 && x < a[j]
      invariant -1 <= j <= i - 1
      invariant forall k :: 0 <= k <= j ==> a[k] == old(a[k])
      invariant forall k :: j + 2 <= k <= i ==> a[k] == old(a[k - 1]) && x < a[k]
      invariant forall k :: i < k < a.Length ==> a[k] == old(a[k])
    {
      a[j + 1] := a[j];
      j := j - 1;
    }
    a[j + 1] := x;
    p := j + 1;
  }

  /** Moving `before[i]` down to position `p`, the elements of `before[p..i]` shifting up
      by one, keeps the multiset; when `p` is where `before[i]` belongs in the sorted
      prefix `before[..i]`, the prefix `after[..i + 1]` is sorted. */
  lemma InsertionStep(before: seq<int>, after: seq<int>, i: int, p: int)
    requires 0 <= p <= i < |before| == |after|
    requires forall u, v :: 0 <= u < v < i ==> before[u] <= before[v]
    requires forall k :: 0 <= k < p ==> after[k] == before[k]
    requires after[p] == before[i]
    requires forall k :: p < k <= i ==> after[k] == before[k - 1] && before[i] < after[k]
    requires forall k :: i < k < |after| ==> after[k] == before[k]
    requires p > 0 ==> after[p - 1] <= before[i]
    ensures multiset(after) == multiset(before)
    ensures forall u, v :: 0 <= u < v <= i ==> after[u] <= after[v]
  {
    RotationKeepsMultiset(before, after, i, p);
    forall u, v | 0 <= u < v <= i
      ensures after[u] <= after[v]
    {
      if v < p {
        assert after[u] == before[u] && after[v] == before[v];
      } else if v == p {
        if u < p - 1 {
          assert after[u] == before[u] && after[p - 1] == before[p - 1];
        }
      } else if u < p {
        assert after[u] == before[u] && after[v] == before[v - 1];
      } else if u > p {
        assert after[u] == before[u - 1] && after[v] == before[v - 1];
      }
    }
  }

  /** Rotating `before[p..i + 1]` one place right keeps the multiset. */
  lemma RotationKeepsMultiset(before: seq<int>, after: seq<int>, i: int, p: int)
    requires 0 <= p <= i < |before| == |after|
    requires forall k :: 0 <= k < p ==> after[k] == before[k]
    requires after[p] == before[i]
    requires forall k :: p < k <= i ==> after[k] == before[k - 1]
    requires forall k :: i < k < |after| ==> after[k] == before[k]
    ensures multiset(after) == multiset(before)
  {
    var r := before[..p] + [before[i]] + before[p..i] + before[i + 1..];
    assert |r| == |after|;
    forall k | 0 <= k < |r| ensures r[k] == after[k] {
      if k < p {
      } else if k == p {
      } else if k <= i {
        assert r[k] == before[p..i][k - p - 1];
      } else {
        assert r[k] == before[i + 1..][k - i - 1];
      }
    }
    assert r == after;
    assert before == before[..p] + before[p..i] + [before[i]] + before[i + 1..];
  }
}

/** Heap sort of src/trees/heap.py: `build_heap`, `max_heapify` and `heap_sort`, which
    rearrange a list in place. */
module HeapSort {
  import opened Heap
  import opened Permutations

  /** After `i`, the slots hold the elements already taken from the root, in the order
      they were taken. */
  ghost predicate SortedTail(s: seq<int>, i: int, n: int, up: bool)
    requires n <= |s|
  {
    forall u, v :: i < u < v < n && 0 <= u ==> Above(s[v], s[u], up)
  }

  /** Everything taken out lies on the far side of everything still in the heap. */
  ghost predicate TailBeyond(s: seq<int>, i: int, n: int, up: bool)
    requires n <= |s|
  {
    forall p, q :: 0 <= p <= i < q < n ==> Above(s[q], s[p], up)
  }

  lemma PermutedKeepsAbove(s0: seq<int>, s1: seq<int>, lo: int, hi: int, x: int, up: bool)
    requires PermutedOn(s0, s1, lo, hi)
    requires forall k :: lo <= k < hi ==> Above(x, s0[k], up)
    ensures forall k :: lo <= k < hi ==> Above(x, s1[k], up)
  {
    PermutedKeepsBounds(s0, s1, lo, hi, x);
  }

  /** Swapping the root of the heap `[0, i]` to slot `i` leaves `[0, i)` a heap but for
      its root. */
  lemma RootSwapped(s0: seq<int>, s1: seq<int>, i: int, up: bool)
    requires 0 < i < |s0| == |s1| && HeapFrom(s0, 0, i + 1, up)
    requires s1[0] == s0[i] && s1[i] == s0[0]
    requires forall k :: 0 <= k < |s0| && k != 0 && k != i ==> s1[k] == s0[k]
    ensures HeapBut(s1, 0, i, 0, up)
  {
  }

  /** One round of `heap_sort`: the root moves to slot `i` and the heap `[0, i)` is
      restored, which extends the sorted tail by one. */
  lemma SortStep(s0: seq<int>, s1: seq<int>, s2: seq<int>, i: int, n: int, up: bool)
    requires 0 < i < n == |s0| == |s1|
    requires HeapFrom(s0, 0, i + 1, up) && SortedTail(s0, i, n, up) && TailBeyond(s0, i, n, up)
    requires s1[0] == s0[i] && s1[i] == s0[0]
    requires forall k :: 0 <= k < n && k != 0 && k != i ==> s1[k] == s0[k]
    requires PermutedOn(s1, s2, 0, i)
    ensures SortedTail(s2, i - 1, n, up) && TailBeyond(s2, i - 1, n, up)
  {
    assert s2[i..] == s1[i..];
    assert forall q :: i <= q < n ==> s2[q] == s2[i..][q - i] == s1[i..][q - i] == s1[q];
    forall j | 0 <= j <= i
      ensures Above(s0[0], s0[j], up)
    {
      RootAbove(s0, i + 1, up, j);
    }
    PermutedKeepsAbove(s1, s2, 0, i, s0[0], up);
    forall q | i < q < n
      ensures forall p :: 0 <= p < i ==> Above(s2[q], s2[p], up)
    {
      PermutedKeepsAbove(s1, s2, 0, i, s0[q], up);
    }
  }

  /** `max_heapify(arr, n, i)` as written: it moves the SMALLER child up (`<` at both
      comparisons), so it restores min-heap order on `arr[:n]`. */
  method MaxHeapify(a: array<int>, n: int, i: int, ghost lo: int)
    requires 0 <= lo <= i && 0 <= n <= a.Length && HeapBut(a[..], lo, n, i, true)
    modifies a
    ensures PermutedOn(old(a[..]), a[..], 0, n)
    ensures HeapFrom(a[..], lo, n, true)
    decreases n - i
  {
    var largest := i;
    var left := 2 * i + 1;
    var right := 2 * i + 2;
    ParentOfChild(i);
    if left < n && a[left] < a[largest] {
      largest := left;
    }
    if right < n && a[right] < a[largest] {
      largest := right;
    }
    if largest != i {
      ghost var s0 := a[..];
      SwapIn(a, i, largest, 0, n);
      ghost var s1 := a[..];
      SiftDownStep(s0, s1, lo, n, i, largest, true);
      MaxHeapify(a, n, largest, lo);
      PermutedOnTrans(s0, s1, a[..], 0, n);
    } else {
      SiftDownDone(a[..], lo, n, i, true);
    }
  }

  /** `build_heap` as written: a min-heap, because of `max_heapify`'s comparisons. */
  method BuildHeap(a: array<int>)
    modifies a
    ensures multiset(a[..]) == old(multiset(a[..]))
    ensures HeapFrom(a[..], 0, a.Length, true)
  {
    var n := a.Length;
    var i := (n - 2) / 2;
    LeavesAreHeaps(a[..], n, true);
    while i >= 0
      invariant i >= -1
      invariant multiset(a[..]) == old(multiset(a[..]))
      invariant HeapFrom(a[..], i + 1, n, true)
    {
      ghost var s := a[..];
      MaxHeapify(a, n, i, i);
      assert a[..] == a[..n] && s == s[..n];
      i := i - 1;
    }
  }

  /** `heap_sort` as written: a rearrangement of the input in NON-INCREASING order. */
  method HeapSort(a: array<int>)
    modifies a
    ensures multiset(a[..]) == old(multiset(a[..]))
    ensures forall u, v :: 0 <= u < v < a.Length ==> a[u] >= a[v]
  {
    var n := a.Length;
    BuildHeap(a);
    var i := n - 1;
    while i > 0
      invariant -1 <= i < n && (n > 0 ==> 0 <= i)
      invariant multiset(a[..]) == old(multiset(a[..]))
      invariant HeapFrom(a[..], 0, i + 1, true)
      invariant SortedTail(a[..], i, n, true) && TailBeyond(a[..], i, n, true)
    {
      ghost var s0 := a[..];
      Swap(a, i, 0);
      ghost var s1 := a[..];
      RootSwapped(s0, s1, i, true);
      MaxHeapify(a, i, 0, 0);
      SortStep(s0, s1, a[..], i, n, true);
      PermutedOnWhole(s1, a[..], 0, i);
      i := i - 1;
    }
    assert forall u, v :: 0 <= u < v < n ==> Above(a[..][v], a[..][u], true);
  }

  /** `[1, 2]` comes out as `[2, 1]`: the as-written heap sort orders downwards. */
  method HeapSortTwo() returns (r: seq<int>)
    ensures r == [2, 1]
  {
    var a := new int[2];
    a[0], a[1] := 1, 2;
    assert a[..] == [1, 2];
    HeapSort(a);
    assert a[0] in multiset(a[..]) && a[1] in multiset(a[..]);
    r := a[..];
  }

  /** The evidently intended `max_heapify`: it moves the LARGER child up (`>`), which
      restores max-heap order on `arr[:n]`. */
  method MaxHeapifyIntended(a: array<int>, n: int, i: int, ghost lo: int)
    requires 0 <= lo <= i && 0 <= n <= a.Length && HeapBut(a[..], lo, n, i, false)
    modifies a
    ensures PermutedOn(old(a[..]), a[..], 0, n)
    ensures HeapFrom(a[..], lo, n, false)
    decreases n - i
  {
    var largest := i;
    var left := 2 * i + 1;
    var right := 2 * i + 2;
    ParentOfChild(i);
    if left < n && a[left] > a[largest] {
      largest := left;
    }
    if right < n && a[right] > a[largest] {
      largest := right;
    }
    if largest != i {
      ghost var s0 := a[..];
      SwapIn(a, i, largest, 0, n);
      ghost var s1 := a[..];
      SiftDownStep(s0, s1, lo, n, i, largest, false);
      MaxHeapifyIntended(a, n, largest, lo);
      PermutedOnTrans(s0, s1, a[..], 0, n);
    } else {
      SiftDownDone(a[..], lo, n, i, false);
    }
  }

  method BuildHeapIntended(a: array<int>)
    modifies a
    ensures multiset(a[..]) == old(multiset(a[..]))
    ensures HeapFrom(a[..], 0, a.Length, false)
  {
    var n := a.Length;
    var i := (n - 2) / 2;
    LeavesAreHeaps(a[..], n, false);
    while i >= 0
      invariant i >= -1
      invariant multiset(a[..]) == old(multiset(a[..]))
      invariant HeapFrom(a[..], i + 1, n, false)
    {
      ghost var s := a[..];
      MaxHeapifyIntended(a, n, i, i);
      assert a[..] == a[..n] && s == s[..n];
      i := i - 1;
    }
  }

  /** Heap sort with the intended max-heap: an ascending rearrangement of the input. */
  method HeapSortIntended(a: array<int>)
    modifies a
    ensures multiset(a[..]) == old(multiset(a[..]))
    ensures Sorted(a[..])
  {
    var n := a.Length;
    BuildHeapIntended(a);
    var i := n - 1;
    while i > 0
      invariant -1 <= i < n && (n > 0 ==> 0 <= i)
      invariant multiset(a[..]) == old(multiset(a[..]))
      invariant HeapFrom(a[..], 0, i + 1, false)
      invariant SortedTail(a[..], i, n, false) && TailBeyond(a[..], i, n, false)
    {
      ghost var s0 := a[..];
      Swap(a, i, 0);
      ghost var s1 := a[..];
      RootSwapped(s0, s1, i, false);
      MaxHeapifyIntended(a, i, 0, 0);
      SortStep(s0, s1, a[..], i, n, false);
      PermutedOnWhole(s1, a[..], 0, i);
      i := i - 1;
    }
    assert forall u, v :: 0 <= u < v < n ==> Above(a[..][v], a[..][u], false);
  }
}

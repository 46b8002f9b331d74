/** The array-backed binary heap of src/trees/heap.py: index arithmetic, heap order,
    and `MinHeap`, whose list is changed in place by swaps, `append` and `pop`. */
module Heap {
  import opened Options

  /** `(i - 1) // 2`; Python's floor division by 2 agrees with Dafny's `/`. A negative
      index has its parent between itself and -1, and -1 and -2 are their own parents. */
  function Parent(i: int): (p: int)
    ensures i > 0 ==> 0 <= p < i
    ensures i < 0 ==> i <= p < 0 && (p == i <==> i >= -2)
  {
    (i - 1) / 2
  }

  /** The slot a Python list index names in a list of length `n`: a negative index
      counts from the end. */
  function Slot(i: int, n: int): (j: int)
    requires -n <= i < n
    ensures 0 <= j < n
  {
    if i < 0 then n + i else i
  }

  function LChild(i: int): int { 2 * i + 1 }

  function RChild(i: int): int { 2 * i + 2 }

  /** The parent of either child of `i` is `i`, and a node's children are exactly
      `LChild` and `RChild`. */
  lemma ParentOfChild(i: int)
    requires i >= 0
    ensures Parent(LChild(i)) == i && Parent(RChild(i)) == i
    ensures forall c :: c > 0 && Parent(c) == i ==> c == LChild(i) || c == RChild(i)
  {
  }

  /** `x` may sit above `y`: `x <= y` in a min-heap (`up`), `x >= y` in a max-heap. */
  predicate Above(x: int, y: int, up: bool)
  {
    if up then x <= y else x >= y
  }

  /** Heap order among the first `n` slots for every parent index at least `lo`. */
  ghost predicate HeapFrom(s: seq<int>, lo: int, n: int, up: bool)
    requires n <= |s|
  {
    forall c :: 0 < c < n && Parent(c) >= lo ==> Above(s[Parent(c)], s[c], up)
  }

  ghost predicate IsMinHeap(s: seq<int>)
  {
    HeapFrom(s, 0, |s|, true)
  }

  /** The state of a sift-down at `k`: heap order from `lo` except between `k` and its
      children, and `k`'s parent (when it counts) is above `k`'s children. */
  ghost predicate HeapBut(s: seq<int>, lo: int, n: int, k: int, up: bool)
    requires n <= |s|
  {
    && (forall c :: 0 < c < n && Parent(c) >= lo && Parent(c) != k ==> Above(s[Parent(c)], s[c], up))
    && (forall c :: 0 < c < n && Parent(c) == k && k > 0 && Parent(k) >= lo ==> Above(s[Parent(k)], s[c], up))
  }

  /** The state of a sift-up at `i` in a min-heap: order holds except between `i` and
      its parent, and `i`'s parent is below `i`'s children. */
  ghost predicate HeapUp(s: seq<int>, i: int)
  {
    && (forall c :: 0 < c < |s| && c != i ==> s[Parent(c)] <= s[c])
    && (forall c :: 0 < c < |s| && Parent(c) == i && i > 0 ==> s[Parent(i)] <= s[c])
  }

  /** The root of a heap is above every element: the minimum of a min-heap. */
  lemma {:induction false} RootAbove(s: seq<int>, n: int, up: bool, j: int)
    requires 0 <= j < n <= |s| && HeapFrom(s, 0, n, up)
    ensures Above(s[0], s[j], up)
    decreases j
  {
    if j > 0 {
      RootAbove(s, n, up, Parent(j));
    }
  }

  /** Building a heap starts from the last non-leaf `(n - 2) // 2`: every slot after it
      is a leaf, so heap order holds there vacuously. */
  lemma LeavesAreHeaps(s: seq<int>, n: int, up: bool)
    requires 0 <= n <= |s|
    ensures HeapFrom(s, (n - 2) / 2 + 1, n, up)
  {
    forall c | 0 < c < n
      ensures Parent(c) < (n - 2) / 2 + 1
    {
      assert c - 1 <= n - 2;
    }
  }

  /** Swapping `k` with its best child `m` moves the sift-down to `m`. */
  lemma SiftDownStep(s: seq<int>, t: seq<int>, lo: int, n: int, k: int, m: int, up: bool)
    requires 0 <= lo <= k < m < n <= |s| == |t|
    requires m == LChild(k) || m == RChild(k)
    requires HeapBut(s, lo, n, k, up)
    requires forall c :: 0 < c < n && Parent(c) == k ==> Above(s[m], s[c], up)
    requires Above(s[m], s[k], up)
    requires t[k] == s[m] && t[m] == s[k]
    requires forall j :: 0 <= j < |s| && j != k && j != m ==> t[j] == s[j]
    ensures HeapBut(t, lo, n, m, up)
  {
    ParentOfChild(k);
    forall c | 0 < c < n && Parent(c) >= lo && Parent(c) != m
      ensures Above(t[Parent(c)], t[c], up)
    {
      if Parent(c) == k {
      } else if c == k {
        assert Parent(m) == k;
      }
    }
  }

  /** A sift-down whose node is above its children is finished. */
  lemma SiftDownDone(s: seq<int>, lo: int, n: int, k: int, up: bool)
    requires 0 <= lo <= k && n <= |s| && HeapBut(s, lo, n, k, up)
    requires forall c :: 0 < c < n && Parent(c) == k ==> Above(s[k], s[c], up)
    ensures HeapFrom(s, lo, n, up)
  {
  }

  /** Swapping `i` with a larger parent moves the sift-up to the parent. */
  lemma SiftUpStep(s: seq<int>, t: seq<int>, i: int)
    requires 0 < i < |s| == |t| && HeapUp(s, i) && s[Parent(i)] > s[i]
    requires t[i] == s[Parent(i)] && t[Parent(i)] == s[i]
    requires forall j :: 0 <= j < |s| && j != i && j != Parent(i) ==> t[j] == s[j]
    ensures HeapUp(t, Parent(i))
  {
    var p := Parent(i);
    forall c | 0 < c < |t| && c != p
      ensures t[Parent(c)] <= t[c]
    {
      if c == i {
      } else if Parent(c) == i {
      } else if Parent(c) == p {
        assert s[p] <= s[c];
      }
    }
  }

  /** A sift-up that reached the root or a smaller parent is finished. */
  lemma SiftUpDone(s: seq<int>, i: int)
    requires 0 <= i < |s| && HeapUp(s, i) && (i == 0 || s[Parent(i)] <= s[i])
    ensures IsMinHeap(s)
  {
  }

  lemma SwapMultiset(s: seq<int>, t: seq<int>, i: int, j: int)
    requires 0 <= i < |s| == |t| && 0 <= j < |s|
    requires t[i] == s[j] && t[j] == s[i]
    requires forall k :: 0 <= k < |s| && k != i && k != j ==> t[k] == s[k]
    ensures multiset(t) == multiset(s)
  {
    assert t == s[i := s[j]][j := s[i]];
  }

  class MinHeap {
    var arr: seq<int>

    ghost predicate Valid()
      reads this
    {
      IsMinHeap(arr)
    }

    /** Build-heap: heapify from the last non-leaf down to the root. */
    constructor (ls: seq<int>)
      ensures Valid() && multiset(arr) == multiset(ls)
    {
      arr := ls;
      new;
      var i := (|ls| - 2) / 2;
      LeavesAreHeaps(ls, |ls|, true);
      while i >= 0
        invariant i >= -1
        invariant multiset(arr) == multiset(ls) && |arr| == |ls|
        invariant HeapFrom(arr, i + 1, |arr|, true)
      {
        Heapify(i, i, true);
        i := i - 1;
      }
    }

    /** Sifts `arr[i]` down, swapping it with its smaller child while that child is
        smaller. When heap order from `lo` holds everywhere except between `i` and its
        children (the caller says so with `ok`), it then holds everywhere from `lo`. */
    method Heapify(i: int, ghost lo: int, ghost ok: bool)
      requires 0 <= lo <= i && (ok ==> HeapBut(arr, lo, |arr|, i, true))
      modifies this
      ensures |arr| == old(|arr|) && multiset(arr) == old(multiset(arr))
      ensures ok ==> HeapFrom(arr, lo, |arr|, true)
      decreases |arr| - i
    {
      var lt := LChild(i);
      var rt := RChild(i);
      var smallest := i;
      var n := |arr|;
      if lt < n && arr[lt] < arr[smallest] {
        smallest := lt;
      }
      if rt < n && arr[rt] < arr[smallest] {
        smallest := rt;
      }
      if smallest != i {
        var s := arr;
        arr := s[smallest := s[i]][i := s[smallest]];
        SmallestStep(s, arr, lo, i, smallest, ok);
        Heapify(smallest, lo, ok);
      } else {
        SmallestDone(arr, lo, i, ok);
      }
    }

    method Insert(x: int)
      requires Valid()
      modifies this
      ensures Valid()
      ensures |arr| == old(|arr|) + 1 && multiset(arr) == old(multiset(arr)) + multiset{x}
    {
      arr := arr + [x];
      var i := |arr| - 1;
      while i > 0 && arr[Parent(i)] > arr[i]
        invariant 0 <= i < |arr| && |arr| == old(|arr|) + 1
        invariant multiset(arr) == old(multiset(arr)) + multiset{x}
        invariant HeapUp(arr, i)
      {
        var p := Parent(i);
        var s := arr;
        arr := arr[i := s[p]][p := s[i]];
        SiftUpStep(s, arr, i);
        SwapMultiset(s, arr, i, p);
        i := p;
      }
      SiftUpDone(arr, i);
    }

    /** Moves the last key to the root, pops the last slot and sifts the root down. The
        old root comes back; it is the minimum when the list was a min-heap. */
    method ExtractMin() returns (r: Option<int>)
      modifies this
      ensures old(|arr|) == 0 ==> r.None? && arr == old(arr)
      ensures old(|arr|) > 0 ==> && r == Some(old(arr[0]))
                                 && |arr| == old(|arr|) - 1
                                 && multiset(arr) == old(multiset(arr)) - multiset{r.value}
      ensures old(Valid()) ==> Valid()
      ensures old(Valid()) && old(|arr|) > 0 ==> forall j :: 0 <= j < old(|arr|) ==> r.value <= old(arr[j])
    {
      if |arr| == 0 {
        return None;
      }
      var s := arr;
      var res := arr[0];
      if IsMinHeap(s) {
        forall j | 0 <= j < |s| ensures res <= s[j] {
          RootAbove(s, |s|, true, j);
        }
      }
      arr := arr[0 := arr[|arr| - 1]];
      arr := arr[..|arr| - 1];
      RemoveRootMultiset(s, arr);
      Heapify(0, 0, IsMinHeap(s));
      return Some(res);
    }

    /** `decrease_key(i, x)`: writes `x` at Python index `i` (which raises `IndexError`
        outside `-len .. len - 1`, a negative index counting from the end) and swaps it
        with its parent while the parent is larger, until index 0. A decrease at a
        non-negative index keeps heap order. A larger key stays where it is, below keys it
        may now exceed. A negative index follows Python's parents of negative indices
        instead: -1 and -2 are their own parents, so the key stays put. */
    method DecreaseKey(i: int, x: int) returns (raised: bool)
      requires Valid()
      modifies this
      ensures raised <==> !(-old(|arr|) <= i < old(|arr|))
      ensures raised ==> arr == old(arr)
      ensures !raised ==> |arr| == old(|arr|) && multiset(arr) == multiset(old(arr)[Slot(i, |arr|) := x])
      ensures 0 <= i < old(|arr|) && x <= old(arr[i]) ==> Valid()
      ensures 0 <= i < old(|arr|) && x > old(arr[i]) ==> arr == old(arr)[i := x]
      ensures (i == -1 || i == -2) && -old(|arr|) <= i ==> arr == old(arr)[old(|arr|) + i := x]
    {
      var n := |arr|;
      if !(-n <= i < n) {
        return true;
      }
      raised := false;
      ghost var a0 := arr;
      ghost var decrease := 0 <= i && x <= a0[i];
      ghost var increase := 0 <= i && x > a0[i];
      if increase && i > 0 {
        assert a0[Parent(i)] <= a0[i];
      }
      var a := arr[Slot(i, n) := x];
      ghost var a1 := a;
      var k := i;
      while k != 0 && a[Slot(Parent(k), n)] > a[Slot(k, n)]
        invariant |a| == n && multiset(a) == multiset(a1)
        invariant if i >= 0 then 0 <= k < n else -n <= k < 0
        invariant decrease ==> HeapUp(a, k)
        invariant increase || i == -1 || i == -2 ==> k == i && a == a1
        decreases if k >= 0 then k else -k
      {
        var p := Parent(k);
        var s := a;
        a := s[Slot(p, n) := s[Slot(k, n)]][Slot(k, n) := s[Slot(p, n)]];
        if decrease {
          SiftUpStep(s, a, k);
        }
        SwapMultiset(s, a, Slot(k, n), Slot(p, n));
        k := p;
      }
      if decrease {
        SiftUpDone(a, k);
      }
      arr := a;
    }

    /** `delete(i)`: an index not below the length changes nothing; any other goes to
        `decrease_key(i, -math.inf)`, which raises below `-len`, and then to
        `extract_min`. The source's `-math.inf` is played by a value below the root,
        hence below every key. A valid index loses exactly its key. A negative index
        does not: -1 and -2 leave the stand-in in place of the key at their slot and
        remove the root. */
    method Delete(i: int) returns (raised: bool)
      requires Valid()
      modifies this
      ensures raised <==> i < -old(|arr|)
      ensures raised || i >= old(|arr|) ==> arr == old(arr)
      ensures 0 <= i < old(|arr|) ==> Valid() && |arr| == old(|arr|) - 1
      ensures 0 <= i < old(|arr|) ==> multiset(arr) == old(multiset(arr)) - multiset{old(arr[i])}
      ensures -old(|arr|) <= i < 0 ==> |arr| == old(|arr|) - 1
      ensures (i == -1 || i == -2) && 0 < old(|arr|) + i ==>
        multiset(arr) == multiset(old(arr)[old(|arr|) + i := old(arr[0]) - 1]) - multiset{old(arr[0])}
    ensures (i == -1 || i == -2) && old(|arr|) + i == 0 ==>
      Valid() && multiset(arr) == old(multiset(arr)) - multiset{old(arr[0])}
    {
      if i >= |arr| {
        return false;
      }
      var s := arr;
      var minusInf := if |arr| == 0 then 0 else arr[0] - 1;
      forall j | 0 <= j < |s| ensures minusInf < s[j] {
        RootAbove(s, |s|, true, j);
      }
      raised := DecreaseKey(i, minusInf);
      if raised {
        return;
      }
      ghost var m := arr;
      if (i == -1 || i == -2) && |s| + i == 0 {
        // The stand-in lands on the root, which only lowers the root.
        assert m == s[0 := minusInf];
        assert IsMinHeap(m);
      }
      var r := ExtractMin();
      if i >= 0 {
        BelowAllIsExtracted(s, i, minusInf, m);
      }
    }

    /** `delete` with the guard evidently intended, `not 0 <= i < len(arr)`: an index
        that names no slot counting from the front changes nothing, and any other loses
        exactly its key. */
    method DeleteChecked(i: int)
      requires Valid()
      modifies this
      ensures Valid()
      ensures !(0 <= i < old(|arr|)) ==> arr == old(arr)
      ensures 0 <= i < old(|arr|) ==> |arr| == old(|arr|) - 1
      ensures 0 <= i < old(|arr|) ==> multiset(arr) == old(multiset(arr)) - multiset{old(arr[i])}
    {
      if i < 0 {
        return;
      }
      var raised := Delete(i);
    }
  }

  /** `delete(-1)` on a heap built from 1, 2 and 3 removes the minimum 1 rather than the
      key in the last slot, and leaves the stand-in for `-math.inf`, here 0, in the heap. */
  method NegativeDelete() returns (h: MinHeap, raised: bool)
    ensures !raised && |h.arr| == 2 && 1 !in multiset(h.arr) && 0 in multiset(h.arr)
  {
    h := new MinHeap([1, 2, 3]);
    assert h.arr[0] == 1 by {
      assert multiset(h.arr) == multiset{1, 2, 3};
      assert 1 in multiset(h.arr) && h.arr[0] in multiset(h.arr);
      var k :| 0 <= k < |h.arr| && h.arr[k] == 1;
      RootAbove(h.arr, |h.arr|, true, k);
    }
    assert |h.arr| == 3 by {
      assert |multiset(h.arr)| == 3;
    }
    ghost var a := h.arr;
    raised := h.Delete(-1);
    StandInStays(a, h.arr);
  }

  /** The keys left by `delete(-1)` on the heap `a` built from 1, 2 and 3. */
  lemma StandInStays(a: seq<int>, b: seq<int>)
    requires |a| == 3 && a[0] == 1 && multiset(a) == multiset{1, 2, 3}
    requires multiset(b) == multiset(a[2 := 0]) - multiset{1}
    ensures 1 !in multiset(b) && 0 in multiset(b)
  {
    assert a[1] != 1 by {
      assert a == [1, a[1], a[2]];
    }
    assert a[2 := 0] == [1, a[1], 0];
  }

  /** `delete(-2)` on the heap built from 1 and 2 writes the stand-in over the root, which
      `extract_min` then removes: exactly the minimum goes and the heap `[2]` is left. */
  method RootStandInDelete() returns (h: MinHeap, raised: bool)
    ensures !raised && h.arr == [2]
  {
    h := new MinHeap([1, 2]);
    assert |h.arr| == 2 by {
      assert |multiset(h.arr)| == 2;
    }
    assert h.arr[0] == 1 by {
      assert 1 in multiset(h.arr) && h.arr[0] in multiset(h.arr);
      var k :| 0 <= k < |h.arr| && h.arr[k] == 1;
      RootAbove(h.arr, |h.arr|, true, k);
    }
    raised := h.Delete(-2);
    assert multiset(h.arr) == multiset{2};
    assert h.arr[0] in multiset(h.arr);
  }

  /** The smallest of `k` and its children, `m`, swapped up into `k`: the multiset is
      kept, and a sift-down in progress at `k` moves to `m`. */
  lemma SmallestStep(s: seq<int>, t: seq<int>, lo: int, k: int, m: int, ok: bool)
    requires 0 <= lo <= k && (m == LChild(k) || m == RChild(k)) && m < |s|
    requires s[m] < s[k]
    requires LChild(k) < |s| ==> s[m] <= s[LChild(k)]
    requires RChild(k) < |s| ==> s[m] <= s[RChild(k)]
    requires t == s[m := s[k]][k := s[m]]
    requires ok ==> HeapBut(s, lo, |s|, k, true)
    ensures |t| == |s| && multiset(t) == multiset(s)
    ensures ok ==> HeapBut(t, lo, |t|, m, true)
  {
    SwapMultiset(s, t, k, m);
    if ok {
      ParentOfChild(k);
      SiftDownStep(s, t, lo, |s|, k, m, true);
    }
  }

  /** A sift-down at `k` whose node is not above either child is finished. */
  lemma SmallestDone(s: seq<int>, lo: int, k: int, ok: bool)
    requires 0 <= lo <= k
    requires LChild(k) < |s| ==> s[k] <= s[LChild(k)]
    requires RChild(k) < |s| ==> s[k] <= s[RChild(k)]
    requires ok ==> HeapBut(s, lo, |s|, k, true)
    ensures ok ==> HeapFrom(s, lo, |s|, true)
  {
    if ok {
      ParentOfChild(k);
      SiftDownDone(s, lo, |s|, k, true);
    }
  }

  /** `arr[0] = arr[-1]; arr.pop()` removes one occurrence of the root. */
  lemma RemoveRootMultiset(s: seq<int>, t: seq<int>)
    requires |s| > 0 && t == s[0 := s[|s| - 1]][..|s| - 1]
    ensures multiset(t) == multiset(s) - multiset{s[0]}
  {
    if |s| > 1 {
      assert s == [s[0]] + s[1..|s| - 1] + [s[|s| - 1]];
      assert t == [s[|s| - 1]] + s[1..|s| - 1];
    }
  }

  /** A value below every key, written at `i`, is the minimum that `extract_min` then
      takes from the root of the heap `m` holding those keys, so `delete` removes exactly
      the old `arr[i]`. */
  lemma BelowAllIsExtracted(s: seq<int>, i: int, v: int, m: seq<int>)
    requires 0 <= i < |s| && forall j :: 0 <= j < |s| ==> v < s[j]
    requires |m| > 0 && multiset(m) == multiset(s[i := v])
    requires forall j :: 0 <= j < |m| ==> m[0] <= m[j]
    ensures m[0] == v
    ensures multiset(m) - multiset{m[0]} == multiset(s) - multiset{s[i]}
  {
    assert s[i := v][i] == v;
    assert v in multiset(m);
    var k :| 0 <= k < |m| && m[k] == v;
    assert m[0] in multiset(s[i := v]);
    assert m[0] in s[i := v];
  }

}

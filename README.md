# Verified model of a data-structures teaching repository

The repository teaches classic data structures and algorithms, written once in
Python and often again in TypeScript. This Dafny project models its core and proves what
each piece promises:

- folds over lists and over lists of functions: `sum`, `product`, `foldr`, `foldl`,
  `compose`, `pipe`, `map`, `reduce`;
- two hash tables: separate chaining (`ChainHash`) and open addressing with linear probing
  (`OpenAddressHash`);
- trees:
  - a generic binary tree with recursive and iterative traversals;
  - a binary search tree;
  - an array-backed min-heap (`MinHeap`) and heap sort;
- sorting: bubble, selection and insertion sort; quicksort with three partition schemes;
  merging and merge sort;
- singly, doubly and circular linked lists.

The model follows the form of the code:

- Recursive, pure code becomes datatypes, functions and lemmas. This covers the folds,
  the binary tree and the search tree.
- In-place array algorithms keep their `array` and become methods with loop invariants,
  each proved against a specification function or predicate. This covers the sorts,
  heap sort and the open-addressing table.
- Objects whose fields change become classes: `ChainHash`, `OpenAddressHash`, `MinHeap`.
- Linked lists are heap-allocated `Node` objects.
  - Every list operation receives a ghost sequence `nodes`: the nodes met by following
    `next` from the head.
  - A predicate (`Chain`, `List` for doubly linked lists, `Ring` for circular ones) ties
    that sequence to the links.
  - Each operation states the new values (`Data`) in terms of the old ones. Each one that
    adds or removes nodes also states the new node sequence, with any new node fresh.

Modules, one per source file (twins in Python and TypeScript share one module):

| module | file | source |
|---|---|---|
| `Folds` | folds.dfy | src/functional/folds.ts |
| `ChainHash`, `OpenAddressHash` | chain_hash.dfy, open_address_hash.dfy | src/hashing/hash-tables.py |
| `BinaryTree` | binary_tree.dfy | src/trees/binary-tree.py |
| `Bst` | bst.dfy | src/trees/binary-search-tree.py |
| `Heap`, `HeapSort` | heap.dfy, heap_sort.dfy | src/trees/heap.py |
| `BasicSorts` | basic_sorts.dfy | src/sorting/basic-sorts.py, .ts |
| `QuickSort` | quick_sort.dfy | src/sorting/quick-sort.ts |
| `MergeSort` | merge_sort.dfy | src/sorting/merge-sort.py, .ts |
| `SinglyLinked` | singly_linked.dfy | src/linked-lists/singly-linked-list.ts, .py |
| `DoublyLinked` | doubly_linked.dfy | src/linked-lists/doubly-linked-list.py, .ts |
| `CircularLinked` | circular_linked.dfy | src/linked-lists/circular-linked-list.ts, .py |
| `Options`, `Permutations`, `Sequences` | options.dfy, permutations.dfy, sequences.dfy | shared vocabulary: `Option`, `Outcome` (a result or a raised exception), sortedness and permutation, reversal and insertion |

## Model

| member | source | states |
|---|---|---|
| `Folds.FoldrAppend` | src/functional/folds.ts:20 | A right fold over `xs + ys` is the fold of `xs` seeded with the fold of `ys`. |
| `Folds.FoldlIsFoldrOfReverse` | src/functional/folds.ts:33 | `foldl(f, acc, xs)` equals `foldr(f, acc, reverse(xs))`: the left fold feeds the elements to `f` first to last. |
| `Folds.FoldrComputesSumAndProduct` | src/functional/folds.ts:22-30 | For every list, `sumFoldr` equals `sum` and `productFoldr` equals `product` (lines 4 and 11), not just on the asserted examples. |
| `Folds.FoldlAdd` | src/functional/folds.ts:35 | A left fold with `+` from any accumulator adds the list's `sum` to it. |
| `Folds.FoldlMul` | src/functional/folds.ts:40 | A left fold with `*` from any accumulator multiplies it by the list's `product`. |
| `Folds.FoldlComputesSumAndProduct` | src/functional/folds.ts:35-43 | For every list, `sumFoldl` equals `sum` and `productFoldl` equals `product`. |
| `Folds.ComposeAppliesRightToLeft` | src/functional/folds.ts:48-57 | `compose([f1, ..., fn])(x) = f1(f2(... fn(x)))`, and `compose([])` is the identity. |
| `Folds.PipeAsWrittenIsCompose` | src/functional/folds.ts:61 | As written, `pipe([f1, ..., fn])(x) = f1(f2(... fn(x)))`, the same function as `compose`, not the `fn(... f1(x))` its comment on line 60 promises. |
| `Folds.PipeCounterexample` | src/functional/folds.ts:51-61 | With `add1` and `multiplyBy5`, `pipe` as written gives 51 at 10 and the intended pipe gives 55. |
| `Folds.PipeIntendedAppliesLeftToRight` | src/functional/folds.ts:60 | The corrected pipe applies the functions first to last: `fn(... f2(f1(x)))`. |
| `Folds.MapPointwise` | src/functional/folds.ts:74-81 | `map(xs, cb)` has the length of `xs` and holds `cb(xs[i])` at every index `i`. |
| `Folds.ReduceAsWrittenFlipsArguments` | src/functional/folds.ts:84 | As written, `reduce` is the left-nested reduction with the callback's arguments swapped: the current element is passed as `pre`. |
| `Folds.ReduceIntendedIsLeftNested` | src/functional/folds.ts:84 | With the callback called as `cb(pre, cur)`, `reduce` is `((x1 cb x2) cb x3) ... cb xn`. |
| `Folds.ReduceCommutative` | src/functional/folds.ts:84-86 | For a commutative callback, such as the `+` of the example, the two readings agree. |
| `Folds.ReduceExamples` | src/functional/folds.ts:84-86 | `reduce([7, 3, 8], +) = 18`; on `[1, 2]` with `-`, the code as written gives 1 where `pre - cur` gives -1. |
| `ChainHash.IndexOf` | src/hashing/hash-tables.py:214-216 | The index of the first record in the bucket carrying the key, or `None` when no record carries it. |
| `ChainHash.LookupFinds` | src/hashing/hash-tables.py:201-209 | `get_val` finds a value exactly when some record of the bucket carries the key, and the value found is that of a record with the key. |
| `ChainHash.PutThenLookup` | src/hashing/hash-tables.py:211-219 | After `put_val(k, v)` the bucket maps `k` to `v`. |
| `ChainHash.PutOtherKey` | src/hashing/hash-tables.py:211-219 | `put_val(k, v)` leaves the value of every other key unchanged. |
| `ChainHash.PutOverwrites` | src/hashing/hash-tables.py:214-218 | A second `put_val` with the same key gives the bucket the first call alone would have given with the second value. |
| `ChainHash.PutKeepsUnique` | src/hashing/hash-tables.py:211-219 | `put_val` never creates a second record for a key and adds no record other than `(k, v)`. |
| `ChainHash.DeleteThenLookup` | src/hashing/hash-tables.py:221-228 | After `delete_val(k)` on a bucket without duplicate keys, `k` is no longer found. |
| `ChainHash.DeleteOtherKey` | src/hashing/hash-tables.py:221-228 | `delete_val(k)` leaves every other key's value unchanged and changes nothing when `k` is absent. |
| `ChainHash.DeleteKeepsUnique` | src/hashing/hash-tables.py:224-228 | `pop(i)` keeps the remaining records without introducing any, and shrinks the bucket by one exactly when the key was present. |
| `ChainHash.ChainHash.BucketOf` | src/hashing/hash-tables.py:202 | `hash(key) % size` is a valid bucket index. |
| `ChainHash.ChainHash.constructor` | src/hashing/hash-tables.py:197-199 | Any `size` is accepted. A positive size gives that many empty buckets; zero or a negative size gives none, as `range(size)` is then empty. The table holds no key. |
| `ChainHash.ChainHash.GetVal` | src/hashing/hash-tables.py:201-209 | Raises when the size is not positive: `% 0` raises `ZeroDivisionError`, and a negative size leaves no bucket to index. Otherwise the value of the key in the table, `None` exactly when no record of its bucket carries it. |
| `ChainHash.ChainHash.PutVal` | src/hashing/hash-tables.py:211-219 | Raises, changing nothing, when the size is not positive. Otherwise only the key's bucket changes; afterwards the key maps to `val` and every other key keeps its value. |
| `ChainHash.ChainHash.DeleteVal` | src/hashing/hash-tables.py:221-228 | Raises, changing nothing, when the size is not positive. Otherwise only the key's bucket changes; afterwards the key is absent and every other key keeps its value. |
| `ChainHash.PutOverwriteDelete` | src/hashing/hash-tables.py:283-294 | The calls of the source's test: a missing key gives `None`, a put is found, a second put overwrites it, and a delete removes it. |
| `ChainHash.ZeroSizeRaises` | src/hashing/hash-tables.py:197-202 | A table of size 0 is built without complaint, and then `get_val`, `put_val` and `delete_val` each raise. |
| `OpenAddressHash.Probe` | src/hashing/hash-tables.py:248-249 | Step `k` of the circular probe from `h` is a slot index. |
| `OpenAddressHash.ProbeNext` | src/hashing/hash-tables.py:262-264 | `i = (i + 1) % cap` moves to the next probe step, and comes back to `h` only after `cap` steps. |
| `OpenAddressHash.FullRunFullTable` | src/hashing/hash-tables.py:242-249 | A probe that meets only keys for `cap` steps has seen a full table, so while `size < cap` the probe loop of `insert` finds a free slot. |
| `OpenAddressHash.KeyOnRun` | src/hashing/hash-tables.py:255-265 | With every key reachable from its home slot, `search` stopping at the first `-1` decides plain membership. |
| `OpenAddressHash.InsertKeepsChains` | src/hashing/hash-tables.py:246-251 | Writing a new key into the first `-1` or `-2` slot of its probe run keeps every key reachable from its home slot. |
| `OpenAddressHash.RemoveKeepsChains` | src/hashing/hash-tables.py:272-275 | Turning a key's slot into the tombstone `-2` keeps every other key reachable and removes one key. |
| `OpenAddressHash.OpenAddressHash.constructor` | src/hashing/hash-tables.py:232-235 | `cap` slots, all `-1`, and `size` 0. A `cap` of zero or below gives no slot at all, as `[-1] * cap` does. |
| `OpenAddressHash.OpenAddressHash.Hash` | src/hashing/hash-tables.py:237-238 | `x % cap` is a slot index when `cap > 0`, and lies in `(cap, 0]` when `cap < 0` (Python's sign rule). |
| `OpenAddressHash.OpenAddressHash.Search` | src/hashing/hash-tables.py:255-265 | Raises exactly when `cap <= 0`: `x % 0` raises `ZeroDivisionError`, and with a negative `cap` there is no slot to index. Otherwise True exactly when `x` lies on its probe run before a `-1`, and so exactly when `x` is in the table. |
| `OpenAddressHash.OpenAddressHash.Insert` | src/hashing/hash-tables.py:240-253 | Raises exactly when `cap < 0`, through `search`. With `cap = 0` the table counts as full and the call returns False. False, with nothing changed, when the table is full or already holds `x`. Otherwise `x` is written into the first `-1`/`-2` slot of its probe run and `size` grows by one. |
| `OpenAddressHash.OpenAddressHash.FreeSlot` | src/hashing/hash-tables.py:246-249 | From the home slot, the probe loop stops at the first slot holding `-1` or `-2`, every earlier step having met a key. |
| `OpenAddressHash.OpenAddressHash.Remove` | src/hashing/hash-tables.py:267-279 | Raises exactly when `cap <= 0`, as `search` does. Otherwise true exactly when `x` was present; its slot becomes `-2` and nothing else changes. When `x` was absent the table is unchanged. Either way `x` is absent afterwards. |
| `OpenAddressHash.NonPositiveCapacity` | src/hashing/hash-tables.py:232-279 | `OpenAddressHash(0)`: `insert` returns False without raising, while `search` and `remove` raise. `OpenAddressHash(-3)`: `search` and `insert` raise. |
| `Heap.Parent` | src/trees/heap.py:73-74 | The parent of a non-root index comes before it. Python's floor division gives a negative index a parent between it and -1; -1 and -2 are their own parents. |
| `Heap.Slot` | src/trees/heap.py:157 | A Python index from `-n` to `n - 1` names a slot of a list of length `n`, a negative one counting from the end. |
| `Heap.ParentOfChild` | src/trees/heap.py:73-80 | `parent(lchild(i)) = parent(rchild(i)) = i`, and those are the only children of `i`. |
| `Heap.RootAbove` | src/trees/heap.py:139-142 | The root of a heap is above every element: the minimum of a min-heap, which `extract_min` returns. |
| `Heap.LeavesAreHeaps` | src/trees/heap.py:67-71 | Every slot after the last non-leaf `(n - 2) // 2` already satisfies heap order, so building starts there. |
| `Heap.SiftDownStep` | src/trees/heap.py:97-104 | Swapping a node with its smallest child moves the one violation of heap order down to that child. |
| `Heap.SiftDownDone` | src/trees/heap.py:102 | A node not greater than its children ends `heapify` with heap order restored. |
| `Heap.SiftUpStep` | src/trees/heap.py:121-124 | Swapping a node with a larger parent moves the one violation of heap order up to the parent. |
| `Heap.SiftUpDone` | src/trees/heap.py:121 | A sift-up that reaches the root or a parent not greater than the node ends with a min-heap. |
| `Heap.SmallestStep` | src/trees/heap.py:97-104 | Swapping a node with its smaller child keeps the elements and moves a sift-down in progress to that child. |
| `Heap.SmallestDone` | src/trees/heap.py:97-102 | A node that is no greater than either child ends a sift-down, with heap order restored. |
| `Heap.MinHeap.constructor` | src/trees/heap.py:52-71 | Building from `ls` gives a min-heap holding exactly the elements of `ls`. |
| `Heap.MinHeap.Heapify` | src/trees/heap.py:82-104 | Keeps the elements. When heap order is broken only between `i` and its children, it holds everywhere afterwards. |
| `Heap.MinHeap.Insert` | src/trees/heap.py:106-124 | The heap stays a min-heap and gains exactly one `x`. |
| `Heap.MinHeap.ExtractMin` | src/trees/heap.py:126-146 | On an empty list, nothing and no change. Otherwise it returns the old root and removes exactly one occurrence of it. On a min-heap that root is the minimum, and the heap stays a min-heap. |
| `Heap.MinHeap.DecreaseKey` | src/trees/heap.py:148-160 | Raises `IndexError`, changing nothing, for an index outside `-n .. n - 1`. Otherwise `x` replaces the key in the slot the index names, and the elements are otherwise kept. At a non-negative index, an `x` no greater than the key keeps a min-heap, and a larger `x` stays at `i`. At -1 and -2, `x` stays in its slot. |
| `Heap.MinHeap.Delete` | src/trees/heap.py:162-173 | An index from `n` up changes nothing, and one below `-n` raises. A valid index loses exactly its key, and the heap stays a min-heap. A negative index from `-n` loses one element. At -1 or -2, the stand-in for `-inf` takes the place of the key there, and the root is removed instead. When that slot is the root itself (-2 on two keys, -1 on one), exactly the old root goes and the heap stays a min-heap. |
| `Heap.MinHeap.DeleteChecked` | src/trees/heap.py:162-173 | With the guard `not 0 <= i < len(arr)`, any other index changes nothing, and a valid one loses exactly its key; the heap stays a min-heap. |
| `Heap.NegativeDelete` | src/trees/heap.py:162-173 | `delete(-1)` on the heap built from 1, 2 and 3 leaves two keys: 1 is gone and the stand-in for `-inf` is there. |
| `Heap.RootStandInDelete` | src/trees/heap.py:162-173 | `delete(-2)` on the heap built from 1 and 2 leaves the heap `[2]`: the stand-in lands on the root and only the minimum is removed. |
| `Heap.RemoveRootMultiset` | src/trees/heap.py:143-144 | `arr[0] = arr[-1]; arr.pop()` removes exactly one occurrence of the root. |
| `Heap.BelowAllIsExtracted` | src/trees/heap.py:171-173 | A value below every key written at `i` is what `extract_min` then removes, so `delete` removes exactly the old key at `i`. |
| `HeapSort.RootSwapped` | src/trees/heap.py:223-224 | Swapping the root to slot `i` leaves `[0, i)` a heap except at the root, ready for `max_heapify(arr, i, 0)`. |
| `HeapSort.SortStep` | src/trees/heap.py:222-224 | One round of `heap_sort` grows the ordered tail by the root and keeps it beyond everything still in the heap. |
| `HeapSort.MaxHeapify` | src/trees/heap.py:204-214 | As written (`<`), it rearranges `arr[:n]` and restores MIN-heap order there. |
| `HeapSort.BuildHeap` | src/trees/heap.py:198-201 | As written, `build_heap` makes the array a min-heap with the same elements. |
| `HeapSort.HeapSort` | src/trees/heap.py:217-224 | As written, `heap_sort` rearranges the array into NON-INCREASING order. |
| `HeapSort.HeapSortTwo` | src/trees/heap.py:217-224 | As written, `heap_sort` turns `[1, 2]` into `[2, 1]`. |
| `HeapSort.MaxHeapifyIntended` | src/trees/heap.py:204-214 | With `>`, it rearranges `arr[:n]` and restores max-heap order there. |
| `HeapSort.BuildHeapIntended` | src/trees/heap.py:198-201 | With the corrected comparison, `build_heap` makes a max-heap with the same elements. |
| `HeapSort.HeapSortIntended` | src/trees/heap.py:217-224 | With the corrected comparison, `heap_sort` sorts ascending and keeps the elements. |
| `BasicSorts.BubblePass` | src/sorting/basic-sorts.py:27-33 | One pass keeps the elements, leaves the tail past `limit` alone and carries the largest of `[0, limit]` to `limit`. With no swap, the array is unchanged and that prefix is sorted. The TypeScript pass is lines 24-29 of basic-sorts.ts. |
| `BasicSorts.BubbleSort` | src/sorting/basic-sorts.py:17-35 | `bubble_sort` sorts the list in place and keeps its elements. |
| `BasicSorts.BubbleSortNPasses` | src/sorting/basic-sorts.ts:15-35 | `bubbleSort`, with its outer loop allowing `n` passes, sorts the array in place and keeps its elements. |
| `BasicSorts.SelectionSort` | src/sorting/basic-sorts.py:52-63 | `selection_sort` sorts in place and keeps the elements; `selectionSort` (basic-sorts.ts 54-69) is the same loop. |
| `BasicSorts.InsertionSort` | src/sorting/basic-sorts.py:83-95 | `insertion_sort` sorts in place and keeps the elements; `insertionSort` (basic-sorts.ts 93-107) is the same loop. |
| `BasicSorts.Insert` | src/sorting/basic-sorts.py:85-95 | `x = l[i]` lands at `p`. The elements between `p` and `i`, all greater than `x`, move up one slot; the elements before `p` are not above `x`. |
| `BasicSorts.InsertionStep` | src/sorting/basic-sorts.py:89-95 | Placing `x` this way grows the sorted prefix by one and keeps the elements. |
| `QuickSort.FilterLe` | src/sorting/quick-sort.ts:47-51 | The elements gathered by the first loop are all at most the pivot. |
| `QuickSort.FilterGt` | src/sorting/quick-sort.ts:53-57 | The elements gathered by the second loop are all greater than the pivot. |
| `QuickSort.FiltersPartition` | src/sorting/quick-sort.ts:46-57 | Together the two groups hold exactly the elements of the array. |
| `QuickSort.PartitionNaive` | src/sorting/quick-sort.ts:42-60 | After the pivot is swapped to the end, the array becomes the elements at most the pivot followed by the greater ones, each group in array order. |
| `QuickSort.CollectLe` | src/sorting/quick-sort.ts:47-51 | The first loop collects exactly the elements at most the pivot, in order. |
| `QuickSort.CollectGt` | src/sorting/quick-sort.ts:53-57 | The second loop appends exactly the elements greater than the pivot, in order. |
| `QuickSort.CopyOver` | src/sorting/quick-sort.ts:59 | `splice` leaves the array equal to `temp`. |
| `QuickSort.PartitionNaiveSplits` | src/sorting/quick-sort.ts:42-60 | The result is a rearrangement of the input with every element at most the pivot before every greater one. |
| `QuickSort.PivotEndsFirstGroup` | src/sorting/quick-sort.ts:44-51 | The pivot, moved to the end, is the last element of the first group. |
| `QuickSort.PartitionNaiveExample` | src/sorting/quick-sort.ts:62-68 | `partitionNaive([10, 8, 2, 5, 4], 4)` gives `[2, 4, 10, 8, 5]`. |
| `QuickSort.PartitionLomuto` | src/sorting/quick-sort.ts:102-115 | Returns the pivot's final index `p` in `[l, h]`. Everything before `p` is below the pivot and everything after is at least it; the range is permuted and the rest untouched. |
| `QuickSort.QuickSortLomuto` | src/sorting/quick-sort.ts:118-124 | `a[l..h]` becomes a sorted rearrangement of itself; a range of fewer than two elements is left alone. |
| `QuickSort.PartitionHoare` | src/sorting/quick-sort.ts:148-168 | Returns `j` in `[l, h)` when `l < h`. `a[l..j]` is at most the pivot and `a[j+1..h]` at least it; the range is permuted. |
| `QuickSort.ScanRight` | src/sorting/quick-sort.ts:152-154 | `i` stops at the first element not below the pivot, all skipped elements being below it. |
| `QuickSort.ScanLeft` | src/sorting/quick-sort.ts:156-158 | `j` stops at the last element not above the pivot, all skipped elements being above it. |
| `QuickSort.QuickSortHoare` | src/sorting/quick-sort.ts:171-180 | `a[l..h]` becomes a sorted rearrangement of itself, recursing on `[l, p]` and `[p+1, h]`. |
| `QuickSort.HoareStep` | src/sorting/quick-sort.ts:177-178 | Sorting both sides of a Hoare split sorts the whole range and keeps its elements. |
| `QuickSort.SortedParts` | src/sorting/quick-sort.ts:120-122 | Sorting both sides of a Lomuto split around the pivot sorts the whole range and keeps its elements. |
| `MergeSort.MergedFromPermutes` | src/sorting/merge-sort.py:22-32 | What is still to be merged from positions `i` and `j` holds exactly the elements of `a[i:]` and `b[j:]`, under either tie rule. |
| `MergeSort.MergedRest` | src/sorting/merge-sort.py:29-32 | Once one input is used up, the rest of the merge is what is left of `a` followed by what is left of `b`. |
| `MergeSort.MergedPermutes` | src/sorting/merge-sort.py:18-33 | Either merge (`b` first on ties, as in `merge_lists`, or the left run first, as in `merge`) holds exactly the elements of both inputs. |
| `MergeSort.MergedFromSorted` | src/sorting/merge-sort.py:61-79 | Merging two ascending runs, from any positions on, gives an ascending run, under either tie rule. |
| `MergeSort.MergesAgree` | src/sorting/merge-sort.py:11-14 | On ascending inputs both merges equal the sorted concatenation that `merge_naive` (and `mergeListsNaive`, merge-sort.ts 12-16) computes. |
| `MergeSort.MergeLists` | src/sorting/merge-sort.ts:27-45 | The loop of `mergeLists` (and `merge_lists`, merge-sort.py 18-33) computes the merge that takes from `b` on ties. |
| `MergeSort.Merge` | src/sorting/merge-sort.py:55-79 | `a[low..high]` becomes the merge of `a[low..mid]` and `a[mid+1..high]`, and the rest of `a` is unchanged. `merge` in merge-sort.ts (67-91) is the same. |
| `MergeSort.MergeHeads` | src/sorting/merge-sort.py:61-70 | The first loop writes the first `i + j` elements of the merge from `low` on, changes nothing else, stops with one run used up, and what it has not written is the merge of what remains. |
| `MergeSort.CopyRest` | src/sorting/merge-sort.py:72-79 | Each tail loop writes what remains of its run, which is the next part of the merge, from `k` on and changes nothing else. |
| `MergeSort.MergeSort` | src/sorting/merge-sort.py:94-99 | `a[l..r]` becomes a sorted rearrangement of itself; a range of fewer than two elements is left alone. `mergeSort` (merge-sort.ts 119-127) is the same. |
| `MergeSort.MergeSortStep` | src/sorting/merge-sort.py:96-99 | Merging two sorted halves gives a sorted rearrangement of the range. |
| `MergeSort.MergeSpliced` | src/sorting/merge-sort.py:99 | Writing the merge of the two halves over `[l, r]` only rearranges that range. |
| `BinaryTree.Size` | src/trees/binary-tree.py:91-100 | `size` counts the nodes, with multiplicity of their data. |
| `BinaryTree.Height` | src/trees/binary-tree.py:128-145 | Height 0 exactly for the empty tree, 1 for a single node, and never more than the size. |
| `BinaryTree.GetMax` | src/trees/binary-tree.py:103-112 | `None` (for `-inf`) exactly for the empty tree. Otherwise a node's data that no node's data exceeds. |
| `BinaryTree.Search` | src/trees/binary-tree.py:115-125 | True exactly when some node holds `data`. |
| `BinaryTree.InorderListsEveryNode` | src/trees/binary-tree.py:57-65 | The in-order listing holds every node's data exactly once. |
| `BinaryTree.PreorderListsEveryNode` | src/trees/binary-tree.py:68-76 | The pre-order listing holds every node's data exactly once. |
| `BinaryTree.PostorderListsEveryNode` | src/trees/binary-tree.py:79-88 | The post-order listing holds every node's data exactly once. |
| `BinaryTree.InorderInto` | src/trees/binary-tree.py:57-65 | `inorder(root, ls)` appends the in-order listing to `ls`. |
| `BinaryTree.PreorderInto` | src/trees/binary-tree.py:68-76 | `preorder(root, ls)` appends the pre-order listing to `ls`. |
| `BinaryTree.PostorderInto` | src/trees/binary-tree.py:79-88 | `postorder(root, ls)` appends the post-order listing to `ls`. |
| `BinaryTree.PushLeftSpine` | src/trees/binary-tree.py:170-172 | Pushing the left spine keeps "result so far + listing owed by the stack" equal to the in-order listing. |
| `BinaryTree.InorderIter` | src/trees/binary-tree.py:148-173 | `None` for an empty tree. Otherwise exactly the recursive in-order listing. |
| `BinaryTree.PushChildren` | src/trees/binary-tree.py:195-198 | Pushes the right child, then the left one, skipping missing children. |
| `BinaryTree.PreorderIter` | src/trees/binary-tree.py:176-199 | `None` for an empty tree. Otherwise exactly the recursive pre-order listing. |
| `BinaryTree.EnqueueKids` | src/trees/binary-tree.py:216-219 | Enqueues the left child, then the right one, skipping missing children. |
| `BinaryTree.LevelOrder` | src/trees/binary-tree.py:202-220 | `None` for an empty tree. Otherwise the breadth-first listing: level by level, left to right. |
| `BinaryTree.LevelsListEveryNode` | src/trees/binary-tree.py:202-220 | The level-order listing holds every node's data exactly once. |
| `BinaryTree.LevelsStartAtRoot` | src/trees/binary-tree.py:212-215 | The level-order listing starts with the root's data. |
| `Bst.BstKeysOnce` | src/trees/binary-search-tree.py:80-94 | A search tree holds every key at most once. |
| `Bst.InorderIncreasing` | src/trees/binary-search-tree.py:43-47 | The in-order listing of a search tree is strictly increasing. |
| `Bst.Search` | src/trees/binary-search-tree.py:50-62 | On a search tree, the descent finds `data` exactly when it is a key. |
| `Bst.SearchIter` | src/trees/binary-search-tree.py:65-77 | The loop gives the recursive answer, so on a search tree it decides membership. |
| `Bst.InsertKeepsBst` | src/trees/binary-search-tree.py:80-94 | `insert` keeps search-tree order and adds exactly `data` to the keys; an existing key leaves the tree unchanged. |
| `Bst.InsertInorder` | src/trees/binary-search-tree.py:80-94 | After `insert`, the in-order listing is still strictly increasing and gains `data` unless it was present. |
| `Bst.InsertAddsOne` | src/trees/binary-search-tree.py:87-94 | Inserting a missing key adds one node holding it. |
| `Bst.InsertIter` | src/trees/binary-search-tree.py:97-123 | The loop that walks to the parent and attaches the leaf gives exactly the tree of the recursive `insert`. |
| `Bst.Leftmost` | src/trees/binary-search-tree.py:126-129 | The leftmost node has no left child and holds a key; in a search tree it holds the least key. |
| `Bst.FindSuccessor` | src/trees/binary-search-tree.py:126-129 | `__find_successor` returns the leftmost node. |
| `Bst.DeleteKeepsBst` | src/trees/binary-search-tree.py:132-171 | `delete` keeps search-tree order and removes exactly `data` from the keys. |
| `Bst.DeleteAbsent` | src/trees/binary-search-tree.py:150-157 | Deleting a missing key gives back the same tree. |
| `Bst.DeleteSize` | src/trees/binary-search-tree.py:132-171 | Deleting a present key removes exactly one node. |
| `Bst.Floor` | src/trees/binary-search-tree.py:174-193 | The largest key not above `val`, or `None` exactly when every key is above it. |
| `Bst.Ceil` | src/trees/binary-search-tree.py:196-215 | The smallest key not below `val`, or `None` exactly when every key is below it. |
| `SinglyLinked.ToArray` | src/linked-lists/singly-linked-list.ts:10-19 | The values from the head to the end, in order. `to_list` (singly-linked-list.py 7-13) is the same. |
| `SinglyLinked.InsertBegin` | src/linked-lists/singly-linked-list.ts:28-30 | A fresh head holding `data` in front of the old nodes. `insert_begin` (py 16-19) is the same. |
| `SinglyLinked.InsertEnd` | src/linked-lists/singly-linked-list.ts:42-54 | The values gain `data` at the end; the head is kept unless the list was empty. `insert_end` (py 32-40) is the same. The node sequence gains a fresh last node. |
| `SinglyLinked.InsertPos` | src/linked-lists/singly-linked-list.ts:64-91 | Position 1 prepends and position `p` in `2..n+1` inserts at index `p-1`. A position below 1 inserts after the head; a position past `n+1` changes nothing. A fresh node enters the node sequence at the same index. `insert_pos` (py 53-72) is the same. |
| `SinglyLinked.DeleteFirst` | src/linked-lists/singly-linked-list.ts:108-111 | The old second node (null for a list of one node) becomes the head and the values lose their first; an empty list stays empty. `delete_first` (py 98-102) is the same. |
| `SinglyLinked.DeleteLast` | src/linked-lists/singly-linked-list.ts:125-139 | Null for zero or one node. Otherwise the same head with the last value gone. The node sequence loses its last node. |
| `SinglyLinked.Search` | src/linked-lists/singly-linked-list.ts:156-169 | -1 exactly when no node holds `x`. Otherwise the 1-based position of the first node holding it. |
| `SinglyLinked.LessRun` | src/linked-lists/singly-linked-list.ts:192-194 | The walk passes exactly the leading values below `data` and stops at the first value not below it. |
| `SinglyLinked.SortedSlotKeepsSorted` | src/linked-lists/singly-linked-list.ts:179-201 | Inserting at the slot `sortedInsert` picks keeps a sorted list sorted and adds exactly one `data`. |
| `SinglyLinked.SortedInsert` | src/linked-lists/singly-linked-list.ts:179-201 | The values become the old values with `data` inserted at its sorted slot. A fresh node enters the node sequence at that slot. |
| `SinglyLinked.SlotPredecessor` | src/linked-lists/singly-linked-list.ts:191-194 | The walk stops at the node right before the sorted slot of `data`: its value is at most `data` and its successor is null or not below `data`. |
| `SinglyLinked.ReverseUsingStack` | src/linked-lists/singly-linked-list.ts:217-233 | Same nodes, links and head; the values are reversed. |
| `SinglyLinked.Relink` | src/linked-lists/singly-linked-list.ts:247-250 | Turning one node round moves it from the unreversed part to the front of the reversed part, keeping both well formed. |
| `SinglyLinked.Reverse` | src/linked-lists/singly-linked-list.ts:243-256 | The old last node becomes the head; the node sequence and the values are reversed. |
| `SinglyLinked.ReverseRec` | src/linked-lists/singly-linked-list.ts:266-275 | The result is the reversal of the part from `curr` followed by the already reversed part from `prev`. Called with `prev = null`, it reverses the list. |
| `DoublyLinked.ToArray` | src/linked-lists/doubly-linked-list.py:7-13 | The values from the head to the end, following `next`. `toArray` (doubly-linked-list.ts 11-20) is the same. |
| `DoublyLinked.InsertBegin` | src/linked-lists/doubly-linked-list.py:16-22 | A fresh head holding `data`, with both link directions kept consistent. `insertBegin` (ts 22-30) is the same. |
| `DoublyLinked.InsertEnd` | src/linked-lists/doubly-linked-list.py:34-45 | A fresh last node holding `data`, with both link directions kept consistent; the head is kept unless the list was empty. `insertEnd` (ts 41-57) is the same. The node sequence gains a fresh last node. |
| `DoublyLinked.DeleteHead` | src/linked-lists/doubly-linked-list.py:58-64 | Null for zero or one node. Otherwise the second node becomes a proper head (`prev` null) over the remaining values. |
| `DoublyLinked.DeleteFirst` | src/linked-lists/doubly-linked-list.ts:68-70 | As written, the second node is returned while its `prev` still points at the old head. The result is a forward chain but not a well-formed doubly linked list. |
| `DoublyLinked.TwoNodeDeleteFirst` | src/linked-lists/doubly-linked-list.ts:68-70 | On `[x, y]`, the returned head holds `y` and its `prev` is still the node holding `x`. |
| `DoublyLinked.TwoNodeDeleteHead` | src/linked-lists/doubly-linked-list.py:58-64 | On `[x, y]`, the returned head holds `y` and has no `prev`. |
| `DoublyLinked.DeleteLast` | src/linked-lists/doubly-linked-list.py:80-88 | Null for zero or one node. Otherwise the same head with the last value gone, both directions consistent. `deleteLast` (ts 82-95) is the same. The node sequence loses its last node. |
| `DoublyLinked.SwappedIsReversed` | src/linked-lists/doubly-linked-list.py:114-125 | Once every node has swapped `prev` and `next`, the reversed node sequence is a well-formed list headed by the old last node. |
| `DoublyLinked.DataReversed` | src/linked-lists/doubly-linked-list.py:109-125 | The values of the reversed nodes are the reversed values. |
| `DoublyLinked.SwapLinks` | src/linked-lists/doubly-linked-list.py:118-121 | Swaps one node's links and steps to its old successor. |
| `DoublyLinked.SwapAll` | src/linked-lists/doubly-linked-list.py:113-121 | The loop swaps the links of every node and ends at the old last node; the values are untouched. |
| `DoublyLinked.Reverse` | src/linked-lists/doubly-linked-list.py:109-125 | A list of zero or one node is returned as it is. Otherwise the nodes, and so the values, are reversed in a well-formed list. `reverse` (ts 111-129) is the same. |
| `CircularLinked.ToArray` | src/linked-lists/circular-linked-list.ts:14-30 | The values once round the cycle, starting at the head. `to_list` (circular-linked-list.py 7-17) is the same. |
| `CircularLinked.FindLast` | src/linked-lists/circular-linked-list.ts:39-42 | The walk stops at the node whose `next` is the head: the last node. |
| `CircularLinked.InsertBeginLinear` | src/linked-lists/circular-linked-list.ts:32-48 | A fresh head holding `data`, in front of the old nodes, still a cycle. `insert_begin_linear` (py 20-33) is the same. |
| `CircularLinked.InsertBeginConstant` | src/linked-lists/circular-linked-list.ts:58-70 | Without walking, the head keeps its identity and the values gain `data` in front. The node sequence is the head, then the fresh node, then the old nodes after the head. `insert_begin_constant` (py 46-56) is the same. |
| `CircularLinked.InsertEndLinear` | src/linked-lists/circular-linked-list.ts:80-95 | The values gain `data` at the end and the node sequence a fresh last node; the head is kept, still a cycle. `insert_end_linear` (py 70-82) is the same. |
| `CircularLinked.InsertEndConstant` | src/linked-lists/circular-linked-list.ts:105-119 | Without walking, the values gain `data` at the end. A fresh node heads the old nodes after the head, and the old head node comes last. `insert_end_constant` (py 96-106) is the same. |
| `CircularLinked.DeleteHeadLinear` | src/linked-lists/circular-linked-list.ts:130-142 | Null for zero or one node. Otherwise the node sequence loses its first node: the cycle over the remaining values, headed by the old second node. |
| `CircularLinked.DeleteHeadLinearNoneGuard` | src/linked-lists/circular-linked-list.py:120-128 | As written: a one-node list comes back unchanged, because its `next` is itself and never None. Longer lists lose their first node and value, headed by the old second node. |
| `CircularLinked.DeleteHeadConstant` | src/linked-lists/circular-linked-list.ts:155-165 | As written: a one-node list keeps its node and value. Longer lists lose their first value; the head node is kept and the second node unlinked. `delete_head_constant` (py 143-150) is the same. |
| `CircularLinked.DeleteHeadConstantFixed` | src/linked-lists/circular-linked-list.ts:155-165 | With the guard `next === head` of line 131: null for one node. Longer lists lose their first value; the head node is kept and the second node unlinked. |
| `CircularLinked.SkipSecond` | src/linked-lists/circular-linked-list.ts:162-164 | Copying the second value into the head and unlinking the second node drops the first value. |
| `CircularLinked.OneNodeDeleteHeadConstant` | src/linked-lists/circular-linked-list.ts:155-165 | On the one-node list `[x]`, the deletion as written leaves `[x]`. |
| `CircularLinked.OneNodeDeleteHeadLinearNoneGuard` | src/linked-lists/circular-linked-list.py:120-128 | On the one-node list `[x]`, the Python linear deletion leaves `[x]`. |
| `CircularLinked.OneNodeDeleteHeadConstantFixed` | src/linked-lists/circular-linked-list.ts:131 | On `[x]`, the corrected deletion leaves the empty list. |
| `CircularLinked.DeletePos` | src/linked-lists/circular-linked-list.ts:178-200 | As written. An empty list stays empty, and a one-node list is unchanged at every position (position 1 goes to `deleteHeadConstant`). On longer lists, position 1 drops the first value and keeps the head node. Any other position walks `pos - 2` nodes round the cycle and unlinks the node at index `Target(pos, n)`. When that node is the head, as at `n + 1`, the old head is returned outside the remaining cycle, which it points into. `delete_pos` (py 165-179) is the same. |
| `CircularLinked.AroundBelow` | src/linked-lists/circular-linked-list.ts:191-193 | Fewer than `n` steps round a cycle of `n` nodes do not wrap. |
| `CircularLinked.TargetPositions` | src/linked-lists/circular-linked-list.ts:178-197 | Positions 1 to `n` name the node at that place. A position below 1 names the second node, like position 2, and position `n + 1` names the head. |
| `CircularLinked.Walk` | src/linked-lists/circular-linked-list.ts:191-193 | The loop walks `pos - 2` nodes, none for a count that is not positive, going round the cycle as needed. |
| `CircularLinked.Unlink` | src/linked-lists/circular-linked-list.ts:197 | Linking a node past its successor removes the successor. When the successor is the head, the other nodes form a cycle of their own that the head points into. |
| `CircularLinked.DeletePosRelinked` | src/linked-lists/circular-linked-list.ts:178-200 | With both corrections, the result is always a cycle. A one-node list loses its node at position 1 and is kept otherwise; longer lists lose exactly the value at index `Target(pos, n)`. The node sequence is stated too: `[head] + nodes[2..]` at position 1 (the second node's value moves into the head); otherwise the node at the target index is dropped, and when that node is the head the head's successor is returned. |
| `CircularLinked.DeletePastEnd` | src/linked-lists/circular-linked-list.ts:178-200 | On `[x, y]`, `deletePos(head, 3)` returns the node holding `x`, whose successor, holding `y`, now points at itself. |
| `CircularLinked.DeletePastEndRelinked` | src/linked-lists/circular-linked-list.ts:178-200 | On `[x, y]`, the relinked deletion of position 3 leaves the cycle `[y]`. |

## Left out

- Python's built-in `hash` in `ChainHash` is a parameter (a function from keys to integers). Keys and values are integers; the source's test uses strings.
- `ChainHash.ChainHash.constructor`: the default size 7 is not modelled; the size is passed explicitly (the test method passes 7).
- `OpenAddressHash`: the constructor's `self.size = 0 .` has a stray `.` that Python rejects. The model reads it as `size = 0`.
- `OpenAddressHash.OpenAddressHash.Remove` does not decrement `size`, as in the source. A table whose every slot was filled and then removed therefore refuses inserts.
- `OpenAddressHash.OpenAddressHash.Search`, `Insert` and `Remove`: keys must be non-negative. `-1` and `-2` mark empty and deleted slots, so a negative key would collide with them. The source does not guard against this.
- `Heap.MinHeap.ExtractMin`: an empty heap gives `None` where the source returns `math.inf`.
- `Heap.MinHeap.Delete`: the `-math.inf` written by `decrease_key` is a value one below the root, which is below every key and follows the same control flow. Floating point is not modelled.
- `Heap.MinHeap.DecreaseKey`: for an index from `-n` to -3, only the new elements and length are stated. The swaps along Python's parents of negative indices are not described.
- `Heap.MinHeap.Delete`: for a negative index other than -1 and -2, only the new length is stated. For -1 and -2 the multiset is stated, and heap order too when the slot is the root.
- `Heap.MinHeap.Insert`, `DecreaseKey` and `Delete` start from a min-heap. A call that breaks heap order (a larger key, or a negative index) is modelled, but later calls on the broken heap are not.
- `Heap.MinHeap.constructor`: Python's mutable default argument `ls=[]`, shared between calls, is not modelled. The array is a fresh value.
- `HeapSort.MaxHeapify`, `HeapSort.BuildHeap` and `HeapSort.HeapSort` model the code as written (a min-heap and a non-increasing result). The intended max-heap versions are separate members; see Findings.
- `Bst`: the pointer updates of `insert`, `insertIter` and `delete` are modelled on tree values. `InsertIter`'s parent pointer is a path of frames. Aliasing of nodes is not captured.
- `Bst.Search` and `Bst.SearchIter` state their membership results only for trees with search-tree order. On other trees the descent gives the same answer, but nothing is claimed about it.
- `Bst.Floor` and `Bst.Ceil` require search-tree order, the documented domain of these operations. Their descent on other trees is not modelled.
- `BinaryTree.GetMax`: `-math.inf` for an empty tree is `None`.
- `BinaryTree.InorderIter`, `PreorderIter` and `LevelOrder`: the bare `return` for an empty tree (Python `None`) is `None`.
- `Folds`: JavaScript numbers are integers here. The `divideBy2`/`divideBy3` pipeline example uses floating point and is not modelled.
- `Folds.Reduce` requires a non-empty list. On `[]` the source passes `undefined` as the initial accumulator, which has no counterpart in a typed model.
- `Folds.MapPointwise`: the example that maps to strings is covered by the generic type, not stated separately.
- `MergeSort`: `merge_naive`/`mergeListsNaive` rely on the library sort. They appear only as "the sorted concatenation" in `MergeSort.MergesAgree`.
- `QuickSort.PartitionHoare` requires `0 <= l <= h < a.length`, which every call from `quickSortHoare` meets; other calls are not modelled.
- Stability of the merges and of insertion sort is not stated: with integer elements, equal elements cannot be told apart.
- `SinglyLinked.InsertPos` requires a non-empty list unless `pos` is 1. On an empty list the source dereferences `null` (TypeScript types `head` as non-null).
- `SinglyLinked.ReverseRec`: the default `prev = null` is an explicit argument.
- `SinglyLinked.Search`: the TypeScript parameter typed `unknown` is an integer here.
- Linked lists: garbage collection, and optional chaining such as `curr.next?.next` where the value is known to be non-null, are not modelled. So are the test functions that only print or assert, beyond the scenario methods listed above.

## Findings

| source | as written | input that shows it | evidently intended | confidence | as-written member | corrected member |
|---|---|---|---|---|---|---|
| src/functional/folds.ts:61 | `pipe` folds left with `x => acc(fn(x))`, which builds `f1(f2(... fn(x)))`, the same function as `compose` | `pipe([add1, multiplyBy5])(10)` is 51 | `fn(... f1(x))`, as the comment on line 60 says: 55 | not executed | `Folds.PipeAsWrittenIsCompose`, `Folds.PipeCounterexample` | `Folds.PipeIntendedAppliesLeftToRight` |
| src/functional/folds.ts:84 | `reduce` calls `cb(x, acc)`: the current element lands in the parameter named `pre` | `reduce([1, 2], (pre, cur) => pre - cur)` is 1 | `cb(acc, x)`, as in JavaScript's `reduce`: -1 | not executed | `Folds.ReduceAsWrittenFlipsArguments`, `Folds.ReduceExamples` | `Folds.ReduceIntendedIsLeftNested` |
| src/trees/heap.py:208-210 | `max_heapify` moves the SMALLER child up (`<`), so `build_heap` builds a min-heap and `heap_sort` sorts downwards | `heap_sort([1, 2])` gives `[2, 1]` | `>`: a max-heap and an ascending result | not executed | `HeapSort.HeapSort`, `HeapSort.HeapSortTwo` | `HeapSort.HeapSortIntended` |
| src/linked-lists/circular-linked-list.ts:156 | `deleteHeadConstant` guards with `!head.next`, which a cycle never meets: a one-node list keeps its node (same in circular-linked-list.py 145) | a one-node list `[x]` | return null, as the guard `head.next === head` of line 131 does | not executed | `CircularLinked.DeleteHeadConstant`, `CircularLinked.OneNodeDeleteHeadConstant` | `CircularLinked.DeleteHeadConstantFixed`, `CircularLinked.OneNodeDeleteHeadConstantFixed` |
| src/linked-lists/circular-linked-list.py:121 | `delete_head_linear` guards with `head.next is None`, which a cycle never meets: a one-node list comes back unchanged | a one-node list `[x]` | return None, as the TypeScript twin's guard `head.next === head` does | not executed | `CircularLinked.DeleteHeadLinearNoneGuard`, `CircularLinked.OneNodeDeleteHeadLinearNoneGuard` | `CircularLinked.DeleteHeadLinear` |
| src/linked-lists/doubly-linked-list.ts:68-70 | `deleteFirst` returns `head.next` without clearing its `prev`, which still points at the removed node | the list `[x, y]` | clear `prev`, as `delete_head` in doubly-linked-list.py 58-64 does | not executed | `DoublyLinked.DeleteFirst`, `DoublyLinked.TwoNodeDeleteFirst` | `DoublyLinked.DeleteHead`, `DoublyLinked.TwoNodeDeleteHead` |
| src/trees/heap.py:168-173 | `delete` guards only `i >= len(arr)`. A negative index reaches `decrease_key`, which writes `-inf` at slot `len + i` and sifts it along Python's parents of negative indices | `delete(-1)` on the heap built from `[1, 2, 3]`: the minimum 1 is removed and `-inf` stays in the heap | leave every index outside `0 .. len - 1` alone, as the guard does for large indices | not executed | `Heap.MinHeap.Delete`, `Heap.NegativeDelete` | `Heap.MinHeap.DeleteChecked` |
| src/linked-lists/circular-linked-list.ts:191-199 | `deletePos` walks round the cycle past the last node. When the node it unlinks is the head, it still returns the old head, which is no longer on the cycle, so `toArray` from it never comes back to it (same in circular-linked-list.py 176-179) | position 3 on `[x, y]` | return the head's successor when the head is the node unlinked | not executed | `CircularLinked.DeletePos`, `CircularLinked.DeletePastEnd` | `CircularLinked.DeletePosRelinked`, `CircularLinked.DeletePastEndRelinked` |

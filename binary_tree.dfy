/** The generic binary tree of src/trees/binary-tree.py: recursive and iterative
    traversals, size, height, maximum and search. The functions there only read the
    nodes, so a tree is a value here. */
module BinaryTree {
  import opened Options

  datatype Tree = Nil | Node(left: Tree, data: int, right: Tree)

  /** The data of every node, with multiplicity. */
  function Elems(t: Tree): multiset<int>
  {
    match t
    case Nil => multiset{}
    case Node(l, d, r) => Elems(l) + multiset{d} + Elems(r)
  }

  /** The traversal orders themselves: left-root-right, root-left-right, left-right-root. */
  function Inorder(t: Tree): seq<int>
  {
    match t
    case Nil => []
    case Node(l, d, r) => Inorder(l) + [d] + Inorder(r)
  }

  function Preorder(t: Tree): seq<int>
  {
    match t
    case Nil => []
    case Node(l, d, r) => [d] + Preorder(l) + Preorder(r)
  }

  function Postorder(t: Tree): seq<int>
  {
    match t
    case Nil => []
    case Node(l, d, r) => Postorder(l) + Postorder(r) + [d]
  }

  /** `size`: the number of nodes. */
  function Size(t: Tree): (n: nat)
    ensures n == |Elems(t)|
  {
    match t
    case Nil => 0
    case Node(l, _, r) => 1 + Size(l) + Size(r)
  }

  /** `height`, counting nodes on the longest root-to-leaf path. */
  function Height(t: Tree): (h: nat)
    ensures h == 0 <==> t == Nil
    ensures t.Node? && t.left == Nil && t.right == Nil ==> h == 1
    ensures h <= Size(t)
  {
    match t
    case Nil => 0
    case Node(l, _, r) => 1 + if Height(l) < Height(r) then Height(r) else Height(l)
  }

  /** The larger of `d` and an optional value, `None` standing for minus infinity. */
  function MaxWith(d: int, o: Option<int>): (m: int)
    ensures m >= d && (o.Some? ==> m >= o.value)
    ensures m == d || (o.Some? && m == o.value)
  {
    match o
    case None => d
    case Some(x) => if x > d then x else d
  }

  /** `get_max`; `None` stands for the `-math.inf` of an empty tree. */
  function GetMax(t: Tree): (r: Option<int>)
    ensures r.None? <==> t == Nil
    ensures r.Some? ==> r.value in Elems(t) && forall x :: x in Elems(t) ==> x <= r.value
  {
    match t
    case Nil => None
    case Node(l, d, r) => Some(MaxWith(MaxWith(d, GetMax(l)), GetMax(r)))
  }

  /** `search`: a pre-order hunt for `d`, true exactly when `d` is some node's data. */
  function Search(t: Tree, d: int): (r: bool)
    ensures r <==> d in Elems(t)
  {
    match t
    case Nil => false
    case Node(l, x, r) => x == d || Search(l, d) || Search(r, d)
  }

  /** A tree as a forest of at most one tree. */
  function Only(t: Tree): seq<Tree>
  {
    if t.Node? then [t] else []
  }

  /** Each traversal lists every node exactly once. */
  lemma {:induction false} InorderListsEveryNode(t: Tree)
    ensures multiset(Inorder(t)) == Elems(t) && |Inorder(t)| == Size(t)
  {
    if t.Node? {
      InorderListsEveryNode(t.left);
      InorderListsEveryNode(t.right);
    }
  }

  lemma {:induction false} PreorderListsEveryNode(t: Tree)
    ensures multiset(Preorder(t)) == Elems(t) && |Preorder(t)| == Size(t)
  {
    if t.Node? {
      PreorderListsEveryNode(t.left);
      PreorderListsEveryNode(t.right);
    }
  }

  lemma {:induction false} PostorderListsEveryNode(t: Tree)
    ensures multiset(Postorder(t)) == Elems(t) && |Postorder(t)| == Size(t)
  {
    if t.Node? {
      PostorderListsEveryNode(t.left);
      PostorderListsEveryNode(t.right);
    }
  }

  /** `inorder(root, ls)`: appends the in-order listing to `ls`. */
  method InorderInto(t: Tree, ls: seq<int>) returns (out: seq<int>)
    ensures out == ls + Inorder(t)
  {
    out := ls;
    if t.Node? {
      out := InorderInto(t.left, out);
      out := out + [t.data];
      out := InorderInto(t.right, out);
    }
  }

  method PreorderInto(t: Tree, ls: seq<int>) returns (out: seq<int>)
    ensures out == ls + Preorder(t)
  {
    out := ls;
    if t.Node? {
      out := out + [t.data];
      out := PreorderInto(t.left, out);
      out := PreorderInto(t.right, out);
    }
  }

  method PostorderInto(t: Tree, ls: seq<int>) returns (out: seq<int>)
    ensures out == ls + Postorder(t)
  {
    out := ls;
    if t.Node? {
      out := PostorderInto(t.left, out);
      out := PostorderInto(t.right, out);
      out := out + [t.data];
    }
  }

  /** What is left to list once the stack `roots` (top last) is popped: each node's
      data followed by its right subtree in order. */
  ghost function InorderPending(roots: seq<Tree>): seq<int>
  {
    if roots == [] then []
    else
      var top := roots[|roots| - 1];
      (if top.Node? then [top.data] + Inorder(top.right) else []) + InorderPending(roots[..|roots| - 1])
  }

  /** Regrouping concatenations. */
  lemma Regroup<T>(a: seq<T>, b: seq<T>, c: seq<T>, d: seq<T>)
    ensures a + (b + c) + d == (a + b) + c + d
  {
  }

  lemma Regroup5<T>(a: seq<T>, b: seq<T>, c: seq<T>, d: seq<T>, e: seq<T>)
    ensures a + (b + c + d) + e == (a + b) + (c + d + e)
  {
  }

  /** The top of the stack owes its own data and then its right subtree. */
  lemma InorderPendingTop(roots: seq<Tree>, t: Tree)
    requires t.Node?
    ensures InorderPending(roots + [t]) == [t.data] + Inorder(t.right) + InorderPending(roots)
  {
    assert (roots + [t])[..|roots|] == roots;
  }

  /** Pushing `curr` and stepping to its left child keeps the listing still owed. */
  lemma InorderPush(result: seq<int>, curr: Tree, roots: seq<Tree>, target: seq<int>)
    requires curr.Node? && result + Inorder(curr) + InorderPending(roots) == target
    ensures result + Inorder(curr.left) + InorderPending(roots + [curr]) == target
  {
    InorderPendingTop(roots, curr);
    Regroup5(result, Inorder(curr.left), [curr.data], Inorder(curr.right), InorderPending(roots));
  }

  /** A non-empty stack is what lies below its top, with the top pushed on. */
  lemma SplitLast<T>(s: seq<T>)
    requires s != []
    ensures s == s[..|s| - 1] + [s[|s| - 1]]
  {
  }

  /** Regrouping so that the popped node's data joins the result. */
  lemma Shift<T>(a: seq<T>, b: seq<T>, c: seq<T>, d: seq<T>)
    ensures a + ((b + c) + d) == ((a + b) + c) + d
  {
  }

  /** Popping the top node, listing it and stepping to its right child. */
  lemma InorderPop(result: seq<int>, below: seq<Tree>, top: Tree, target: seq<int>)
    requires top.Node?
    requires result + InorderPending(below + [top]) == target
    ensures (result + [top.data]) + Inorder(top.right) + InorderPending(below) == target
  {
    InorderPendingTop(below, top);
    Shift(result, [top.data], Inorder(top.right), InorderPending(below));
  }

  /** The descent `inorder_iter` makes twice: push `curr` and every left child below
      it. The ghost `result` and `target` carry the listing still owed. */
  method PushLeftSpine(curr: Tree, roots: seq<Tree>, ghost result: seq<int>, ghost target: seq<int>)
    returns (roots': seq<Tree>)
    requires result + Inorder(curr) + InorderPending(roots) == target
    requires forall k :: 0 <= k < |roots| ==> roots[k].Node?
    ensures result + InorderPending(roots') == target
    ensures forall k :: 0 <= k < |roots'| ==> roots'[k].Node?
  {
    roots' := roots;
    var c := curr;
    while c != Nil
      invariant result + Inorder(c) + InorderPending(roots') == target
      invariant forall k :: 0 <= k < |roots'| ==> roots'[k].Node?
      decreases c
    {
      InorderPush(result, c, roots', target);
      roots' := roots' + [c];
      c := c.left;
    }
    assert result + [] + InorderPending(roots') == result + InorderPending(roots');
  }

  /** `inorder_iter`: the in-order listing from an explicit stack, `None` for an empty tree. */
  method InorderIter(root: Tree) returns (r: Option<seq<int>>)
    ensures root == Nil ==> r.None?
    ensures root != Nil ==> r == Some(Inorder(root))
  {
    if root == Nil {
      return None;
    }
    var result: seq<int> := [];
    assert result + Inorder(root) + InorderPending([]) == Inorder(root);
    var roots := PushLeftSpine(root, [], result, Inorder(root));
    while |roots| > 0
      invariant result + InorderPending(roots) == Inorder(root)
      invariant forall k :: 0 <= k < |roots| ==> roots[k].Node?
      decreases |Inorder(root)| - |result|
    {
      SplitLast(roots);
      InorderPop(result, roots[..|roots| - 1], roots[|roots| - 1], Inorder(root));
      var curr := roots[|roots| - 1];
      roots := roots[..|roots| - 1];
      result := result + [curr.data];
      roots := PushLeftSpine(curr.right, roots, result, Inorder(root));
    }
    assert InorderPending(roots) == [];
    assert result + [] == result;
    return Some(result);
  }

  /** What is left to list from the stack `roots` (top last) in pre-order. */
  ghost function PreorderPending(roots: seq<Tree>): seq<int>
  {
    if roots == [] then [] else Preorder(roots[|roots| - 1]) + PreorderPending(roots[..|roots| - 1])
  }

  /** Pushing a child, if there is one, puts its listing in front of what is owed. */
  lemma PreorderPush(below: seq<Tree>, t: Tree)
    ensures PreorderPending(below + Only(t)) == Preorder(t) + PreorderPending(below)
  {
    if t.Node? {
      assert (below + [t])[..|below|] == below;
    } else {
      assert below + [] == below;
    }
  }

  lemma Regroup6<T>(a: seq<T>, b: seq<T>, c: seq<T>, d: seq<T>, e: seq<T>)
    ensures a + ((b + c + d) + e) == (a + b) + (c + (d + e))
  {
  }

  /** Popping a node, listing it and pushing its right then its left child. */
  lemma PreorderPop(result: seq<int>, below: seq<Tree>, top: Tree, target: seq<int>)
    requires top.Node?
    requires result + PreorderPending(below + [top]) == target
    ensures (result + [top.data]) + PreorderPending(below + Only(top.right) + Only(top.left)) == target
  {
    PreorderPush(below, top);
    PreorderPush(below, top.right);
    PreorderPush(below + Only(top.right), top.left);
    Regroup6(result, [top.data], Preorder(top.left), Preorder(top.right), PreorderPending(below));
  }

  /** Pushes the right, then the left child of `t`, skipping empty ones, so that the
      left one is popped first. */
  method PushChildren(roots: seq<Tree>, t: Tree) returns (roots': seq<Tree>)
    requires t.Node?
    ensures roots' == roots + Only(t.right) + Only(t.left)
  {
    roots' := roots;
    if t.right != Nil {
      roots' := roots' + [t.right];
    }
    if t.left != Nil {
      roots' := roots' + [t.left];
    }
  }

  /** `preorder_iter`: the pre-order listing from an explicit stack, `None` for an empty tree. */
  method PreorderIter(root: Tree) returns (r: Option<seq<int>>)
    ensures root == Nil ==> r.None?
    ensures root != Nil ==> r == Some(Preorder(root))
  {
    if root == Nil {
      return None;
    }
    var roots := [root];
    var result: seq<int> := [];
    PreorderPush([], root);
    assert [] + [root] == [root] && PreorderPending([]) == [] && result + Preorder(root) == Preorder(root);
    while |roots| > 0
      invariant result + PreorderPending(roots) == Preorder(root)
      invariant forall k :: 0 <= k < |roots| ==> roots[k].Node?
      decreases |Preorder(root)| - |result|
    {
      SplitLast(roots);
      PreorderPop(result, roots[..|roots| - 1], roots[|roots| - 1], Preorder(root));
      var curr := roots[|roots| - 1];
      roots := roots[..|roots| - 1];
      result := result + [curr.data];
      roots := PushChildren(roots, curr);
    }
    assert PreorderPending(roots) == [];
    assert result + [] == result;
    return Some(result);
  }

  function ForestSize(f: seq<Tree>): nat
  {
    if f == [] then 0 else Size(f[0]) + ForestSize(f[1..])
  }

  function ForestElems(f: seq<Tree>): multiset<int>
  {
    if f == [] then multiset{} else Elems(f[0]) + ForestElems(f[1..])
  }

  /** The data at the roots of a forest, left to right. */
  function Datas(f: seq<Tree>): seq<int>
  {
    if f == [] then [] else (if f[0].Node? then [f[0].data] else []) + Datas(f[1..])
  }

  /** The non-empty children of a node, left before right: what `levelorder` enqueues. */
  function Kids(t: Tree): seq<Tree>
  {
    if t.Nil? then [] else Only(t.left) + Only(t.right)
  }

  /** The next level down: the kids of every root of the forest, left to right. */
  function Children(f: seq<Tree>): seq<Tree>
  {
    if f == [] then [] else Kids(f[0]) + Children(f[1..])
  }

  lemma {:induction false} ForestSizeAppend(a: seq<Tree>, b: seq<Tree>)
    ensures ForestSize(a + b) == ForestSize(a) + ForestSize(b)
  {
    if a == [] {
      assert a + b == b;
    } else {
      assert (a + b)[0] == a[0] && (a + b)[1..] == a[1..] + b;
      ForestSizeAppend(a[1..], b);
    }
  }

  lemma {:induction false} ForestElemsAppend(a: seq<Tree>, b: seq<Tree>)
    ensures ForestElems(a + b) == ForestElems(a) + ForestElems(b)
  {
    if a == [] {
      assert a + b == b;
    } else {
      assert (a + b)[0] == a[0] && (a + b)[1..] == a[1..] + b;
      ForestElemsAppend(a[1..], b);
    }
  }

  lemma {:induction false} DatasAppend(a: seq<Tree>, b: seq<Tree>)
    ensures Datas(a + b) == Datas(a) + Datas(b)
  {
    if a == [] {
      assert a + b == b;
    } else {
      assert (a + b)[0] == a[0] && (a + b)[1..] == a[1..] + b;
      DatasAppend(a[1..], b);
    }
  }

  lemma {:induction false} ChildrenAppend(a: seq<Tree>, b: seq<Tree>)
    ensures Children(a + b) == Children(a) + Children(b)
  {
    if a == [] {
      assert a + b == b;
    } else {
      assert (a + b)[0] == a[0] && (a + b)[1..] == a[1..] + b;
      ChildrenAppend(a[1..], b);
    }
  }

  lemma OnlyMeasures(t: Tree)
    ensures ForestSize(Only(t)) == Size(t) && ForestElems(Only(t)) == Elems(t)
  {
    if t.Node? {
      assert [t][1..] == [];
    }
  }

  lemma KidsSize(t: Tree)
    ensures ForestSize(Kids(t)) + (if t.Node? then 1 else 0) == Size(t)
  {
    if t.Node? {
      ForestSizeAppend(Only(t.left), Only(t.right));
      OnlyMeasures(t.left);
      OnlyMeasures(t.right);
    }
  }

  lemma KidsElems(t: Tree)
    ensures ForestElems(Kids(t)) + (if t.Node? then multiset{t.data} else multiset{}) == Elems(t)
  {
    if t.Node? {
      ForestElemsAppend(Only(t.left), Only(t.right));
      OnlyMeasures(t.left);
      OnlyMeasures(t.right);
    }
  }

  /** Going one level down loses exactly the roots. */
  lemma {:induction false} ChildrenSize(f: seq<Tree>)
    ensures ForestSize(Children(f)) + |Datas(f)| == ForestSize(f)
  {
    if f != [] {
      KidsSize(f[0]);
      ChildrenSize(f[1..]);
      ForestSizeAppend(Kids(f[0]), Children(f[1..]));
    }
  }

  lemma {:induction false} ChildrenElems(f: seq<Tree>)
    ensures ForestElems(Children(f)) + multiset(Datas(f)) == ForestElems(f)
  {
    if f != [] {
      KidsElems(f[0]);
      ChildrenElems(f[1..]);
      ForestElemsAppend(Kids(f[0]), Children(f[1..]));
    }
  }

  lemma {:induction false} ChildrenAreNodes(f: seq<Tree>)
    ensures forall k :: 0 <= k < |Children(f)| ==> Children(f)[k].Node?
  {
    if f != [] {
      ChildrenAreNodes(f[1..]);
    }
  }

  /** A forest with no node at its roots has no next level either. */
  lemma {:induction false} NoDatasNoChildren(f: seq<Tree>)
    requires Datas(f) == []
    ensures Children(f) == []
  {
    if f != [] {
      DatasFront(f);
      NoDatasNoChildren(f[1..]);
    }
  }

  lemma DatasFront(f: seq<Tree>)
    requires f != []
    ensures |Datas(f)| == (if f[0].Node? then 1 else 0) + |Datas(f[1..])|
  {
  }

  /** Breadth-first listing: the roots' data, then the next level, and so on. */
  function Levels(f: seq<Tree>): seq<int>
    decreases ForestSize(f), |f|
  {
    if f == [] then []
    else
      assert ForestSize(Children(f)) < ForestSize(f) || Children(f) == [] by {
        ChildrenSize(f);
        if Datas(f) == [] { NoDatasNoChildren(f); }
      }
      Datas(f) + Levels(Children(f))
  }

  /** `levelorder` lists every node exactly once. */
  lemma {:induction false} LevelsListEveryNode(f: seq<Tree>)
    ensures multiset(Levels(f)) == ForestElems(f)
    decreases ForestSize(f), |f|
  {
    if f != [] {
      LevelsUnfold(f);
      ChildrenElems(f);
      ChildrenSize(f);
      if Datas(f) == [] {
        NoDatasNoChildren(f);
      }
      LevelsListEveryNode(Children(f));
    }
  }

  /** `levelorder` starts with the root. */
  lemma LevelsStartAtRoot(f: seq<Tree>)
    requires f != [] && f[0].Node?
    ensures |Levels(f)| > 0 && Levels(f)[0] == f[0].data
  {
    LevelsUnfold(f);
    assert Datas(f)[0] == f[0].data;
  }

  /** Dequeuing the next node of the current level and enqueuing its kids. */
  lemma PopQueue(done: seq<Tree>, rest: seq<Tree>)
    requires rest != []
    ensures (rest + Children(done))[1..] + Kids(rest[0]) == rest[1..] + Children(done + [rest[0]])
  {
    ChildrenAppend(done, [rest[0]]);
    assert Children([rest[0]]) == Kids(rest[0]) + Children([]);
    DropFront(rest, Children(done), Kids(rest[0]));
  }

  lemma DropFront<T>(a: seq<T>, b: seq<T>, c: seq<T>)
    requires a != []
    ensures (a + b)[1..] + c == a[1..] + (b + c)
  {
  }

  /** Starting the next level once the current one is used up. */
  lemma LevelsUnfold(f: seq<Tree>)
    requires f != []
    ensures Levels(f) == Datas(f) + Levels(Children(f))
  {
  }

  lemma NextLevel(result: seq<int>, f: seq<Tree>, target: seq<int>)
    requires f != []
    requires result + Levels(f) == target
    ensures result + Datas(f) + Levels(Children(f)) == target
  {
    LevelsUnfold(f);
  }

  lemma LevelPop(result: seq<int>, rest: seq<Tree>, owed: seq<int>, target: seq<int>)
    requires rest != [] && rest[0].Node?
    requires result + Datas(rest) + owed == target
    ensures (result + [rest[0].data]) + Datas(rest[1..]) + owed == target
  {
    var d, tail := rest[0].data, Datas(rest[1..]);
    assert Datas(rest) == [d] + tail;
    Regroup(result, [d], tail, owed);
  }

  lemma SplitFront(done: seq<Tree>, rest: seq<Tree>)
    requires rest != []
    ensures (done + [rest[0]]) + rest[1..] == done + rest
  {
  }

  /** Appends the left, then the right child of `t` to the queue, skipping empty ones. */
  method EnqueueKids(q: seq<Tree>, t: Tree) returns (q': seq<Tree>)
    requires t.Node?
    ensures q' == q + Kids(t)
  {
    q' := q;
    if t.left != Nil {
      q' := q' + [t.left];
    }
    if t.right != Nil {
      q' := q' + [t.right];
    }
  }

  /** The state of `levelorder` part-way: `level` is the level being listed, split into
      the nodes already dequeued (`done`) and those still at the front of the queue
      (`rest`); behind them wait the kids of `done`. */
  ghost predicate LevelState(q: seq<Tree>, result: seq<int>, done: seq<Tree>, rest: seq<Tree>,
                             level: seq<Tree>, target: seq<int>)
  {
    && q == rest + Children(done)
    && done + rest == level
    && (forall k :: 0 <= k < |q| ==> q[k].Node?)
    && result + Datas(rest) + Levels(Children(level)) == target
  }

  /** Dequeuing the front node, listing it and enqueuing its kids. */
  lemma LevelStep(q: seq<Tree>, result: seq<int>, done: seq<Tree>, rest: seq<Tree>,
                  level: seq<Tree>, target: seq<int>)
    requires LevelState(q, result, done, rest, level, target) && rest != []
    ensures q[0] == rest[0] && q[0].Node?
    ensures LevelState(q[1..] + Kids(q[0]), result + [q[0].data], done + [q[0]], rest[1..], level, target)
  {
    assert q[0] == rest[0];
    LevelPop(result, rest, Levels(Children(level)), target);
    PopQueue(done, rest);
    ChildrenAreNodes(done + [rest[0]]);
    SplitFront(done, rest);
  }

  /** Starting on the next level once the current one is used up. */
  lemma LevelDown(q: seq<Tree>, result: seq<int>, done: seq<Tree>, level: seq<Tree>, target: seq<int>)
    requires LevelState(q, result, done, [], level, target) && q != []
    ensures LevelState(q, result, [], q, q, target)
  {
    assert done == level && q == Children(level);
    assert result + Datas([]) == result;
    NextLevel(result, q, target);
  }

  /** Once the queue is empty the listing is complete. */
  lemma LevelDone(result: seq<int>, done: seq<Tree>, rest: seq<Tree>, level: seq<Tree>, target: seq<int>)
    requires LevelState([], result, done, rest, level, target)
    ensures result == target
  {
    assert rest == [] && done == level && Children(level) == [];
    assert Levels([]) == [] && Datas([]) == [];
    assert result + [] + [] == result;
  }

  /** `levelorder`: breadth-first listing from a FIFO queue, `None` for an empty tree. */
  method LevelOrder(root: Tree) returns (r: Option<seq<int>>)
    ensures root == Nil ==> r.None?
    ensures root != Nil ==> r == Some(Levels([root]))
  {
    if root == Nil {
      return None;
    }
    var q := [root];
    var result: seq<int> := [];
    ghost var done: seq<Tree> := [];
    ghost var rest: seq<Tree> := [root];
    ghost var level: seq<Tree> := [root];
    NextLevel([], [root], Levels([root]));
    assert [] + Datas([root]) == Datas([root]) && Children([]) == [];
    while |q| > 0
      invariant LevelState(q, result, done, rest, level, Levels([root]))
      decreases |Levels([root])| - |result|
    {
      if rest == [] {
        LevelDown(q, result, done, level, Levels([root]));
        rest, done, level := q, [], q;
      }
      LevelStep(q, result, done, rest, level, Levels([root]));
      var curr := q[0];
      q := q[1..];
      result := result + [curr.data];
      q := EnqueueKids(q, curr);
      done, rest := done + [curr], rest[1..];
    }
    LevelDone(result, done, rest, level, Levels([root]));
    return Some(result);
  }
}

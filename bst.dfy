/** The binary search tree of src/trees/binary-search-tree.py. Nodes are the trees of
    module BinaryTree; the pointer updates of `insert`, `insertIter` and `delete` are
    modelled on values, each returning the tree the updated root would show. */
module Bst {
  import opened Options
  import opened BinaryTree

  /** The keys of a tree: the data of its nodes, as a set. */
  function Keys(t: Tree): set<int>
  {
    match t
    case Nil => {}
    case Node(l, d, r) => Keys(l) + {d} + Keys(r)
  }

  lemma {:induction false} KeysAreElems(t: Tree)
    ensures forall x :: x in Keys(t) <==> x in Elems(t)
  {
    if t.Node? {
      KeysAreElems(t.left);
      KeysAreElems(t.right);
    }
  }

  /** Every node's data is greater than all keys on its left and smaller than all keys
      on its right (so all data is distinct). */
  predicate IsBst(t: Tree)
  {
    match t
    case Nil => true
    case Node(l, d, r) =>
      && IsBst(l) && IsBst(r)
      && (forall x :: x in Keys(l) ==> x < d)
      && (forall x :: x in Keys(r) ==> x > d)
  }

  predicate StrictlyIncreasing(s: seq<int>)
  {
    forall i, j :: 0 <= i < j < |s| ==> s[i] < s[j]
  }

  /** A search tree holds every key once. */
  lemma {:induction false} BstKeysOnce(t: Tree)
    requires IsBst(t)
    ensures forall x :: Elems(t)[x] <= 1
  {
    if t.Node? {
      BstKeysOnce(t.left);
      BstKeysOnce(t.right);
      KeysAreElems(t.left);
      KeysAreElems(t.right);
      forall x
        ensures Elems(t)[x] <= 1
      {
        if x in Elems(t.left) {
          assert x !in Elems(t.right);
        }
      }
    }
  }

  /** A key, the increasing keys below it and the increasing keys above it, in order. */
  lemma JoinIncreasing(l: seq<int>, d: int, r: seq<int>)
    requires StrictlyIncreasing(l) && StrictlyIncreasing(r)
    requires forall i :: 0 <= i < |l| ==> l[i] < d
    requires forall i :: 0 <= i < |r| ==> r[i] > d
    ensures StrictlyIncreasing(l + [d] + r)
  {
    var s := l + [d] + r;
    forall i, j | 0 <= i < j < |s|
      ensures s[i] < s[j]
    {
      if j <= |l| {
      } else if i >= |l| {
        assert s[j] == r[j - |l| - 1];
      } else {
        assert s[j] == r[j - |l| - 1];
      }
    }
  }

  /** The in-order listing holds only keys of the tree. */
  lemma {:induction false} InorderKeys(t: Tree)
    ensures forall i :: 0 <= i < |Inorder(t)| ==> Inorder(t)[i] in Keys(t)
  {
    if t.Node? {
      InorderKeys(t.left);
      InorderKeys(t.right);
      var l, r := Inorder(t.left), Inorder(t.right);
      forall i | 0 <= i < |Inorder(t)|
        ensures Inorder(t)[i] in Keys(t)
      {
        if i < |l| {
          assert Inorder(t)[i] == l[i];
        } else if i > |l| {
          assert Inorder(t)[i] == r[i - |l| - 1];
        }
      }
    }
  }

  /** The in-order listing of a search tree is strictly increasing. */
  lemma {:induction false} InorderIncreasing(t: Tree)
    requires IsBst(t)
    ensures StrictlyIncreasing(Inorder(t))
  {
    if t.Node? {
      InorderIncreasing(t.left);
      InorderIncreasing(t.right);
      InorderKeys(t.left);
      InorderKeys(t.right);
      JoinIncreasing(Inorder(t.left), t.data, Inorder(t.right));
    }
  }

  /** `search`: descends left when the key is smaller, right when it is larger. */
  function Search(t: Tree, d: int): (r: bool)
    ensures IsBst(t) ==> (r <==> d in Keys(t))
  {
    match t
    case Nil => false
    case Node(l, x, rt) =>
      if x == d then true
      else if x > d then Search(l, d)
      else Search(rt, d)
  }

  /** `searchIter`: the same descent as a loop. */
  method SearchIter(root: Tree, d: int) returns (found: bool)
    ensures found == Search(root, d)
    ensures IsBst(root) ==> (found <==> d in Keys(root))
  {
    var curr := root;
    while curr != Nil
      invariant Search(curr, d) == Search(root, d)
      decreases curr
    {
      if curr.data == d {
        return true;
      } else if curr.data > d {
        curr := curr.left;
      } else {
        curr := curr.right;
      }
    }
    return false;
  }

  /** `insert`: a new leaf where the descent falls off the tree; a key already there
      leaves the tree as it is. */
  function Insert(t: Tree, d: int): Tree
  {
    match t
    case Nil => Node(Nil, d, Nil)
    case Node(l, x, rt) =>
      if x == d then t
      else if x > d then Node(Insert(l, d), x, rt)
      else Node(l, x, Insert(rt, d))
  }

  /** `insert` keeps the search-tree order and adds exactly `d`, unless it is there
      already, in which case the tree comes back unchanged. */
  lemma {:induction false} InsertKeepsBst(t: Tree, d: int)
    requires IsBst(t)
    ensures IsBst(Insert(t, d))
    ensures d in Keys(t) ==> Insert(t, d) == t
    ensures Keys(Insert(t, d)) == Keys(t) + {d}
  {
    match t
    case Nil =>
    case Node(l, x, rt) =>
      if x > d {
        InsertKeepsBst(l, d);
        assert d !in Keys(rt);
      } else if x < d {
        InsertKeepsBst(rt, d);
        assert d !in Keys(l);
      }
  }

  /** After `insert` the in-order listing is the old one with `d` added, still strictly
      increasing. */
  lemma InsertInorder(t: Tree, d: int)
    requires IsBst(t)
    ensures StrictlyIncreasing(Inorder(Insert(t, d)))
    ensures d in Keys(t) ==> Inorder(Insert(t, d)) == Inorder(t)
    ensures d !in Keys(t) ==> multiset(Inorder(Insert(t, d))) == multiset(Inorder(t)) + multiset{d}
  {
    InsertKeepsBst(t, d);
    InorderIncreasing(Insert(t, d));
    if d !in Keys(t) {
      InsertAddsOne(t, d);
      InorderListsEveryNode(t);
      InorderListsEveryNode(Insert(t, d));
    }
  }

  /** Where the key was missing, `insert` adds one node holding it. */
  lemma {:induction false} InsertAddsOne(t: Tree, d: int)
    requires d !in Keys(t)
    ensures Elems(Insert(t, d)) == Elems(t) + multiset{d}
  {
    if t.Node? {
      if t.data > d {
        InsertAddsOne(t.left, d);
      } else {
        InsertAddsOne(t.right, d);
      }
    }
  }

  /** One step of a descent: which way it went, and the part of the node it left behind. */
  datatype Frame = WentLeft(data: int, right: Tree) | WentRight(left: Tree, data: int)

  /** Puts a subtree back in the place the frame was taken from. */
  function Fill(f: Frame, t: Tree): Tree
  {
    match f
    case WentLeft(d, r) => Node(t, d, r)
    case WentRight(l, d) => Node(l, d, t)
  }

  /** Rebuilds the whole tree around a subtree from the frames of the descent to it,
      innermost frame first: this is what assigning `parent.left` or `parent.right`
      does to the tree seen from the root. */
  function Plug(path: seq<Frame>, t: Tree): Tree
  {
    if path == [] then t else Plug(path[1..], Fill(path[0], t))
  }

  lemma PlugPush(path: seq<Frame>, f: Frame, t: Tree)
    ensures Plug([f] + path, t) == Plug(path, Fill(f, t))
  {
    assert ([f] + path)[1..] == path;
  }

  /** `insertIter`: descends to the parent of the new leaf, then attaches it there. */
  method InsertIter(root: Tree, d: int) returns (r: Tree)
    ensures r == Insert(root, d)
  {
    var path: seq<Frame> := [];
    var curr := root;
    while curr != Nil
      invariant Plug(path, curr) == root
      invariant Plug(path, Insert(curr, d)) == Insert(root, d)
      decreases curr
    {
      if curr.data == d {
        return root;
      } else if curr.data > d {
        PlugPush(path, WentLeft(curr.data, curr.right), curr.left);
        PlugPush(path, WentLeft(curr.data, curr.right), Insert(curr.left, d));
        path := [WentLeft(curr.data, curr.right)] + path;
        curr := curr.left;
      } else {
        PlugPush(path, WentRight(curr.left, curr.data), curr.right);
        PlugPush(path, WentRight(curr.left, curr.data), Insert(curr.right, d));
        path := [WentRight(curr.left, curr.data)] + path;
        curr := curr.right;
      }
    }
    r := Plug(path, Node(Nil, d, Nil));
  }

  /** The leftmost node: where `__find_successor` stops. */
  function Leftmost(t: Tree): (m: Tree)
    requires t.Node?
    ensures m.Node? && m.left == Nil && m.data in Keys(t)
    ensures IsBst(t) ==> forall x :: x in Keys(t) ==> m.data <= x
  {
    if t.left == Nil then t else Leftmost(t.left)
  }

  /** `__find_successor`: follows left children to the end. */
  method FindSuccessor(node: Tree) returns (s: Tree)
    requires node.Node?
    ensures s == Leftmost(node)
  {
    s := node;
    while s.left != Nil
      invariant s.Node? && Leftmost(s) == Leftmost(node)
      decreases s
    {
      s := s.left;
    }
  }

  /** `delete`: a node with one child is replaced by that child; a node with two takes
      the data of its in-order successor, which is then deleted from the right. */
  function Delete(t: Tree, d: int): Tree
  {
    match t
    case Nil => Nil
    case Node(l, x, rt) =>
      if x > d then Node(Delete(l, d), x, rt)
      else if x < d then Node(l, x, Delete(rt, d))
      else if l == Nil then rt
      else if rt == Nil then l
      else
        var s := Leftmost(rt).data;
        Node(l, s, Delete(rt, s))
  }

  /** `delete` keeps the search-tree order and removes exactly `d` from the keys; an
      absent key leaves the keys as they were. */
  lemma {:induction false} DeleteKeepsBst(t: Tree, d: int)
    requires IsBst(t)
    ensures IsBst(Delete(t, d))
    ensures Keys(Delete(t, d)) == Keys(t) - {d}
  {
    match t
    case Nil =>
    case Node(l, x, rt) =>
      if x > d {
        DeleteKeepsBst(l, d);
      } else if x < d {
        DeleteKeepsBst(rt, d);
      } else if l != Nil && rt != Nil {
        var s := Leftmost(rt).data;
        DeleteKeepsBst(rt, s);
      }
  }

  /** `delete` of a key that is not there gives back the same tree. */
  lemma {:induction false} DeleteAbsent(t: Tree, d: int)
    requires d !in Keys(t)
    ensures Delete(t, d) == t
  {
    if t.Node? {
      DeleteAbsent(t.left, d);
      DeleteAbsent(t.right, d);
    }
  }

  /** `delete` of a key that is there removes exactly one node. */
  lemma {:induction false} DeleteSize(t: Tree, d: int)
    requires IsBst(t) && d in Keys(t)
    ensures Size(Delete(t, d)) + 1 == Size(t)
  {
    match t
    case Node(l, x, rt) =>
      if x > d {
        DeleteSize(l, d);
      } else if x < d {
        DeleteSize(rt, d);
      } else if l != Nil && rt != Nil {
        DeleteSize(rt, Leftmost(rt).data);
      }
  }

  /** `floor`: the largest key not above `val`, `None` when every key is above it. */
  method Floor(root: Tree, val: int) returns (r: Option<int>)
    requires IsBst(root)
    ensures r.Some? ==> r.value in Keys(root) && r.value <= val
    ensures r.Some? ==> forall x :: x in Keys(root) && x <= val ==> x <= r.value
    ensures r.None? <==> forall x :: x in Keys(root) ==> x > val
  {
    var res: Option<int> := None;
    var curr := root;
    while curr != Nil
      invariant IsBst(curr) && Keys(curr) <= Keys(root)
      invariant res.Some? ==> res.value in Keys(root) && res.value <= val
      invariant res.Some? ==> forall x :: x in Keys(curr) ==> x > res.value
      invariant forall x :: x in Keys(root) && x <= val && x !in Keys(curr) ==> res.Some? && x <= res.value
      decreases curr
    {
      if curr.data == val {
        return Some(curr.data);
      } else if curr.data > val {
        curr := curr.left;
      } else {
        res := Some(curr.data);
        curr := curr.right;
      }
    }
    return res;
  }

  /** `ceil`: the smallest key not below `val`, `None` when every key is below it. */
  method Ceil(root: Tree, val: int) returns (r: Option<int>)
    requires IsBst(root)
    ensures r.Some? ==> r.value in Keys(root) && r.value >= val
    ensures r.Some? ==> forall x :: x in Keys(root) && x >= val ==> x >= r.value
    ensures r.None? <==> forall x :: x in Keys(root) ==> x < val
  {
    var res: Option<int> := None;
    var curr := root;
    while curr != Nil
      invariant IsBst(curr) && Keys(curr) <= Keys(root)
      invariant res.Some? ==> res.value in Keys(root) && res.value >= val
      invariant res.Some? ==> forall x :: x in Keys(curr) ==> x < res.value
      invariant forall x :: x in Keys(root) && x >= val && x !in Keys(curr) ==> res.Some? && x >= res.value
      decreases curr
    {
      if curr.data == val {
        return Some(curr.data);
      } else if curr.data < val {
        curr := curr.right;
      } else {
        res := Some(curr.data);
        curr := curr.left;
      }
    }
    return res;
  }
}

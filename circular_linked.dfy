/** Circular singly linked lists of src/linked-lists/circular-linked-list.ts and its Python
    twin src/linked-lists/circular-linked-list.py: the last node's `next` is the head, and a
    one-node list points at itself. Each method takes the ghost sequence of nodes met going
    once round the cycle from the head. */
module CircularLinked {
  import opened Sequences

  class Node {
    var data: int
    var next: Node?

    constructor (data: int)
      ensures this.data == data && next == null
    {
      this.data := data;
      next := null;
    }
  }

  /** `nodes` are the nodes met going once round from `head`: each node's `next` is the
      following node and the last node's `next` is the head again. */
  ghost predicate Ring(head: Node?, nodes: seq<Node>)
    reads nodes
  {
    Distinct(nodes) &&
    (nodes == [] ==> head == null) &&
    (nodes != [] ==> head == nodes[0] && nodes[|nodes| - 1].next == nodes[0]) &&
    (forall i {:trigger nodes[i].next} :: 0 <= i < |nodes| - 1 ==> nodes[i].next == nodes[i + 1])
  }

  /** The values held by `nodes`, in order. */
  ghost function Data(nodes: seq<Node>): seq<int>
    reads nodes
  {
    seq(|nodes|, i reads nodes requires 0 <= i < |nodes| => nodes[i].data)
  }

  /** The values of a concatenation are the concatenated values. */
  lemma DataSplit(a: seq<Node>, b: seq<Node>)
    ensures Data(a + b) == Data(a) + Data(b)
  {
  }

  /** The node after index `i` going round: the head again after the last node. */
  ghost function Succ(nodes: seq<Node>, i: int): Node
    requires 0 <= i < |nodes|
  {
    if i + 1 < |nodes| then nodes[i + 1] else nodes[0]
  }

  /** Collects the values once round the cycle, starting at the head (the first value is
      taken before the loop tests for being back at the head). */
  method ToArray(head: Node?, ghost nodes: seq<Node>) returns (arr: seq<int>)
    requires Ring(head, nodes)
    ensures arr == Data(nodes)
  {
    arr := [];
    if head == null {
      return;
    }
    arr := arr + [head.data];
    var curr := head.next;
    ghost var i := 1;
    while curr != head
      invariant 1 <= i <= |nodes| && curr == Succ(nodes, i - 1)
      invariant arr == Data(nodes)[..i]
      decreases |nodes| - i
    {
      arr := arr + [curr.data];
      curr := curr.next;
      i := i + 1;
    }
  }

  /** Walks from the head to the node whose `next` is the head. */
  method FindLast(head: Node, ghost nodes: seq<Node>) returns (last: Node)
    requires Ring(head, nodes)
    ensures nodes != [] && last == nodes[|nodes| - 1]
  {
    last := head;
    ghost var i := 0;
    while last.next != head
      invariant 0 <= i < |nodes| && last == nodes[i]
      decreases |nodes| - i
    {
      last := last.next;
      i := i + 1;
    }
  }

  /** A new head holding `data`, found by walking to the last node and linking the new
      node after it. */
  method InsertBeginLinear(head: Node?, ghost nodes: seq<Node>, data: int)
    returns (h: Node, ghost nodes': seq<Node>)
    requires Ring(head, nodes)
    modifies nodes
    ensures fresh(h) && nodes' == [h] + nodes
    ensures Ring(h, nodes') && Data(nodes') == [data] + old(Data(nodes))
  {
    var n := new Node(data);
    if head == null {
      n.next := n;
      return n, [n];
    }
    ghost var d := Data(nodes);
    var curr := FindLast(head, nodes);
    curr.next := n;
    n.next := head;
    h, nodes' := n, [n] + nodes;
    assert Data(nodes) == d;
    DataSplit([n], nodes);
  }

  /** Inserts `data` at the front without walking: a new node goes in second place and
      swaps values with the head, which stays the head. */
  method InsertBeginConstant(head: Node?, ghost nodes: seq<Node>, data: int)
    returns (h: Node, ghost nodes': seq<Node>)
    requires Ring(head, nodes)
    modifies nodes
    ensures head == null ==> fresh(h) && nodes' == [h]
    ensures head != null ==> h == head && |nodes'| == |nodes| + 1 && fresh(nodes'[1])
    ensures head != null ==> nodes' == [head, nodes'[1]] + nodes[1..]
    ensures Ring(h, nodes') && Data(nodes') == [data] + old(Data(nodes))
  {
    var n := new Node(data);
    if head == null {
      n.next := n;
      return n, [n];
    }
    ghost var d := Data(nodes);
    n.next := head.next;
    head.next := n;
    head.data, n.data := n.data, head.data;
    h, nodes' := head, [head, n] + nodes[1..];
    assert Data(nodes[1..]) == d[1..];
    DataSplit([head, n], nodes[1..]);
  }

  /** A new last node holding `data`, linked after the old last node and back to the
      head. */
  method InsertEndLinear(head: Node?, ghost nodes: seq<Node>, data: int)
    returns (h: Node, ghost nodes': seq<Node>)
    requires Ring(head, nodes)
    modifies nodes
    ensures head != null ==> h == head
    ensures |nodes'| == |nodes| + 1 && nodes'[..|nodes|] == nodes && fresh(nodes'[|nodes|])
    ensures Ring(h, nodes') && Data(nodes') == old(Data(nodes)) + [data]
  {
    var n := new Node(data);
    if head == null {
      n.next := n;
      return n, [n];
    }
    ghost var d := Data(nodes);
    var curr := FindLast(head, nodes);
    curr.next := n;
    n.next := head;
    h, nodes' := head, nodes + [n];
    assert Data(nodes) == d;
    DataSplit(nodes, [n]);
  }

  /** Appends `data` without walking: a new node goes in second place and swaps values
      with the head; the new node, now holding the old head's value, becomes the head, so
      the old head node is last. */
  method InsertEndConstant(head: Node?, ghost nodes: seq<Node>, data: int)
    returns (h: Node, ghost nodes': seq<Node>)
    requires Ring(head, nodes)
    modifies nodes
    ensures fresh(h)
    ensures head == null ==> nodes' == [h]
    ensures head != null ==> nodes' == [h] + nodes[1..] + [head]
    ensures Ring(h, nodes') && Data(nodes') == old(Data(nodes)) + [data]
  {
    var n := new Node(data);
    if head == null {
      n.next := n;
      return n, [n];
    }
    ghost var d := Data(nodes);
    n.next := head.next;
    head.next := n;
    head.data, n.data := n.data, head.data;
    h, nodes' := n, [n] + nodes[1..] + [head];
    assert Data(nodes[1..]) == d[1..];
    DataSplit([n] + nodes[1..], [head]);
    DataSplit([n], nodes[1..]);
  }

  /** Drops the head by walking to the last node and linking it to the second node, which
      is returned; a list of zero or one node gives null. */
  method DeleteHeadLinear(head: Node?, ghost nodes: seq<Node>) returns (h: Node?, ghost nodes': seq<Node>)
    requires Ring(head, nodes)
    modifies nodes
    ensures |nodes| <= 1 ==> h == null && nodes' == []
    ensures |nodes| >= 2 ==> h == nodes[1] && nodes' == nodes[1..]
    ensures nodes != [] ==> Data(nodes') == old(Data(nodes))[1..]
    ensures Ring(h, nodes')
  {
    if head == null || head.next == head {
      return null, [];
    }
    ghost var d := Data(nodes);
    var curr := FindLast(head, nodes);
    curr.next := head.next;
    h, nodes' := curr.next, nodes[1..];
    assert Data(nodes') == d[1..];
  }

  /** `delete_head_linear` as written in Python: its guard tests `head.next` for None,
      which never holds on a cycle, so a one-node list is walked, relinked to itself and
      returned with its only value still in it. */
  method DeleteHeadLinearNoneGuard(head: Node?, ghost nodes: seq<Node>) returns (h: Node?, ghost nodes': seq<Node>)
    requires Ring(head, nodes)
    modifies nodes
    ensures nodes == [] ==> h == null
    ensures |nodes| == 1 ==> h == head && nodes' == nodes && Data(nodes') == old(Data(nodes))
    ensures |nodes| >= 2 ==> h == nodes[1] && nodes' == nodes[1..]
    ensures |nodes| >= 2 ==> Data(nodes') == old(Data(nodes))[1..]
    ensures Ring(h, nodes')
  {
    if head == null || head.next == null {
      return null, [];
    }
    ghost var d := Data(nodes);
    var curr := FindLast(head, nodes);
    curr.next := head.next;
    h := curr.next;
    if |nodes| == 1 {
      nodes' := nodes;
    } else {
      nodes' := nodes[1..];
      assert Data(nodes') == d[1..];
    }
  }

  /** Drops the head without walking, as written: the head takes the second node's value
      and skips over it. Its guard tests `head.next` for null, which never holds on a
      cycle, so a one-node list keeps its only value. */
  method DeleteHeadConstant(head: Node?, ghost nodes: seq<Node>) returns (h: Node?, ghost nodes': seq<Node>)
    requires Ring(head, nodes)
    modifies nodes
    ensures nodes == [] ==> h == null
    ensures |nodes| == 1 ==> h == head && nodes' == nodes && Data(nodes') == old(Data(nodes))
    ensures |nodes| >= 2 ==> h == head && nodes' == [head] + nodes[2..]
    ensures |nodes| >= 2 ==> Data(nodes') == old(Data(nodes))[1..]
    ensures Ring(h, nodes')
  {
    if head == null || head.next == null {
      return null, [];
    }
    h, nodes' := SkipSecond(head, nodes);
  }

  /** Drops the head without walking, with the guard the linear TypeScript version uses:
      a list of zero or one node gives null, any other loses exactly its first value. */
  method DeleteHeadConstantFixed(head: Node?, ghost nodes: seq<Node>) returns (h: Node?, ghost nodes': seq<Node>)
    requires Ring(head, nodes)
    modifies nodes
    ensures |nodes| <= 1 ==> h == null && nodes' == []
    ensures nodes != [] ==> Data(nodes') == old(Data(nodes))[1..]
    ensures |nodes| >= 2 ==> h == head && nodes' == [head] + nodes[2..]
    ensures Ring(h, nodes')
  {
    if head == null || head.next == head {
      return null, [];
    }
    h, nodes' := SkipSecond(head, nodes);
  }

  /** The shared body of both constant-time head deletions: copy the second node's value
      into the head and unlink the second node. */
  method SkipSecond(head: Node, ghost nodes: seq<Node>) returns (h: Node, ghost nodes': seq<Node>)
    requires Ring(head, nodes)
    modifies head
    ensures h == head
    ensures |nodes| == 1 ==> nodes' == nodes && Data(nodes') == old(Data(nodes))
    ensures |nodes| >= 2 ==> nodes' == [head] + nodes[2..] && Data(nodes') == old(Data(nodes))[1..]
    ensures Ring(h, nodes')
  {
    ghost var d := Data(nodes);
    head.data := head.next.data;
    head.next := head.next.next;
    h := head;
    if |nodes| == 1 {
      nodes' := nodes;
      assert Data(nodes) == d;
    } else {
      nodes' := [head] + nodes[2..];
      assert Data(nodes[2..]) == d[2..];
      DataSplit([head], nodes[2..]);
    }
  }

  /** On the one-node list [x], the head deletion as written leaves [x]. */
  method OneNodeDeleteHeadConstant(x: int) returns (arr: seq<int>)
    ensures arr == [x]
  {
    var n := new Node(x);
    n.next := n;
    var h, nodes' := DeleteHeadConstant(n, [n]);
    arr := ToArray(h, nodes');
  }

  /** On the one-node list [x], the Python linear head deletion also leaves [x]. */
  method OneNodeDeleteHeadLinearNoneGuard(x: int) returns (arr: seq<int>)
    ensures arr == [x]
  {
    var n := new Node(x);
    n.next := n;
    var h, nodes' := DeleteHeadLinearNoneGuard(n, [n]);
    arr := ToArray(h, nodes');
  }

  /** On the one-node list [x], the corrected head deletion leaves the empty list. */
  method OneNodeDeleteHeadConstantFixed(x: int) returns (arr: seq<int>)
    ensures arr == []
  {
    var n := new Node(x);
    n.next := n;
    var h, nodes' := DeleteHeadConstantFixed(n, [n]);
    arr := ToArray(h, nodes');
  }

  /** The index reached from the head after `k` steps round a cycle of `n` nodes: `k`
      modulo `n`, counted one step at a time as the walk does. */
  ghost function Around(k: nat, n: nat): (j: nat)
    requires n > 0
    ensures j < n
  {
    if k == 0 then 0 else if Around(k - 1, n) + 1 < n then Around(k - 1, n) + 1 else 0
  }

  /** The index of the node `delete_pos` unlinks from a cycle of `n >= 2` nodes: the head
      for position 1; otherwise the successor of the node reached after `pos - 2` steps,
      where a position below 2 takes no step. */
  ghost function Target(pos: int, n: nat): (k: nat)
    requires n > 0
    ensures k < n
  {
    if pos == 1 then 0 else if pos < 2 then Around(1, n) else Around(pos - 1, n)
  }

  /** Fewer than `n` steps round a cycle of `n` nodes do not wrap. */
  lemma {:induction false} AroundBelow(k: nat, n: nat)
    requires k < n
    ensures Around(k, n) == k
  {
    if k > 0 {
      AroundBelow(k - 1, n);
    }
  }

  /** Positions 1 to `n` name the node at that place in the cycle; a position below 1 names
      the second node, like position 2; and position `n + 1` wraps round to the head. */
  lemma TargetPositions(pos: int, n: nat)
    requires n >= 2
    ensures 1 <= pos <= n ==> Target(pos, n) == pos - 1
    ensures pos < 1 ==> Target(pos, n) == 1
    ensures pos == n + 1 ==> Target(pos, n) == 0
  {
    AroundBelow(1, n);
    if 2 <= pos <= n {
      AroundBelow(pos - 1, n);
    }
    if pos == n + 1 {
      AroundBelow(n - 1, n);
    }
  }

  /** Walks `steps` nodes on from the head, going round the cycle as often as needed; a
      count that is not positive walks no node. */
  method Walk(head: Node, ghost nodes: seq<Node>, steps: int) returns (curr: Node, ghost j: nat)
    requires Ring(head, nodes)
    ensures nodes != [] && j < |nodes| && curr == nodes[j]
    ensures j == Around(if steps > 0 then steps else 0, |nodes|)
  {
    curr, j := head, 0;
    var i := 0;
    while i < steps
      invariant 0 <= i && (i <= steps || i == 0)
      invariant j < |nodes| && curr == nodes[j] && j == Around(i, |nodes|)
      decreases steps - i
    {
      curr := curr.next;
      j := if j + 1 < |nodes| then j + 1 else 0;
      i := i + 1;
    }
  }

  /** Deletes the value at 1-based position `pos`, as written. Position 1 goes to the
      constant-time head deletion as written (a one-node list keeps its node); any other
      position walks `pos - 2` nodes, going round the cycle if need be, and unlinks the
      successor of the node reached. When that successor is the head (position `n + 1`,
      say), the cycle closes over the other nodes while the old head, still returned,
      points into it: a walk from it never comes back to it. */
  method DeletePos(head: Node?, ghost nodes: seq<Node>, pos: int) returns (h: Node?, ghost nodes': seq<Node>)
    requires Ring(head, nodes)
    modifies nodes
    ensures nodes == [] ==> h == null && nodes' == []
    ensures nodes != [] ==> h == head
    ensures |nodes| == 1 ==> nodes' == nodes && Ring(h, nodes') && Data(nodes') == old(Data(nodes))
    ensures pos == 1 && |nodes| >= 2 ==> nodes' == [head] + nodes[2..] && Ring(h, nodes')
    ensures pos == 1 && |nodes| >= 2 ==> Data(nodes') == old(Data(nodes))[1..]
    ensures pos != 1 && |nodes| >= 2 && Target(pos, |nodes|) != 0 ==>
      var k := Target(pos, |nodes|);
      nodes' == nodes[..k] + nodes[k + 1..] && Ring(h, nodes')
      && Data(nodes') == old(Data(nodes))[..k] + old(Data(nodes))[k + 1..]
    ensures pos != 1 && |nodes| >= 2 && Target(pos, |nodes|) == 0 ==>
      nodes' == nodes[1..] && Ring(nodes[1], nodes') && h.next == nodes[1] && h !in nodes'
      && h.data == old(head.data) && Data(nodes') == old(Data(nodes))[1..]
  {
    if head == null {
      return null, [];
    }
    if pos == 1 {
      h, nodes' := DeleteHeadConstant(head, nodes);
      return;
    }
    var curr;
    ghost var j;
    curr, j := Walk(head, nodes, pos - 2);
    nodes' := Unlink(head, nodes, curr, j);
    h := head;
  }

  /** Links the node at index `j` past its successor. When the successor is the head, the
      remaining nodes form a cycle of their own, which the head still points into. */
  method Unlink(head: Node, ghost nodes: seq<Node>, curr: Node, ghost j: int) returns (ghost nodes': seq<Node>)
    requires Ring(head, nodes) && 0 <= j < |nodes| && curr == nodes[j]
    modifies curr
    ensures |nodes| == 1 ==> nodes' == nodes && Ring(head, nodes') && Data(nodes') == old(Data(nodes))
    ensures |nodes| >= 2 && j < |nodes| - 1 ==> nodes' == nodes[..j + 1] + nodes[j + 2..] && Ring(head, nodes')
    ensures |nodes| >= 2 && j < |nodes| - 1 ==> Data(nodes') == old(Data(nodes))[..j + 1] + old(Data(nodes))[j + 2..]
    ensures |nodes| >= 2 && j == |nodes| - 1 ==>
      nodes' == nodes[1..] && Ring(nodes[1], nodes') && head.next == nodes[1] && head !in nodes'
      && head.data == old(head.data)
    ensures |nodes| >= 2 && j == |nodes| - 1 ==> Data(nodes') == old(Data(nodes))[1..]
  {
    ghost var d := Data(nodes);
    curr.next := curr.next.next;
    if |nodes| == 1 {
      nodes' := nodes;
      assert Data(nodes) == d;
    } else if j < |nodes| - 1 {
      nodes' := nodes[..j + 1] + nodes[j + 2..];
      assert Data(nodes[..j + 1]) == d[..j + 1];
      assert Data(nodes[j + 2..]) == d[j + 2..];
      DataSplit(nodes[..j + 1], nodes[j + 2..]);
    } else {
      nodes' := nodes[1..];
      assert Data(nodes') == d[1..];
    }
  }

  /** `delete_pos` with the head deletion corrected and with the successor of the old head
      returned whenever the walk unlinks the head: the result is always a cycle, holding
      every value but the one at the target index. */
  method DeletePosRelinked(head: Node?, ghost nodes: seq<Node>, pos: int) returns (h: Node?, ghost nodes': seq<Node>)
    requires Ring(head, nodes)
    modifies nodes
    ensures Ring(h, nodes')
    ensures nodes == [] ==> h == null && nodes' == []
    ensures |nodes| == 1 && pos == 1 ==> h == null && nodes' == []
    ensures |nodes| == 1 && pos != 1 ==> h == head && nodes' == nodes && Data(nodes') == old(Data(nodes))
    ensures |nodes| >= 2 ==>
      var k := Target(pos, |nodes|);
      |nodes'| == |nodes| - 1 && Data(nodes') == old(Data(nodes))[..k] + old(Data(nodes))[k + 1..]
    ensures pos == 1 && |nodes| >= 2 ==> h == head && nodes' == [head] + nodes[2..]
    ensures pos != 1 && |nodes| >= 2 && Target(pos, |nodes|) != 0 ==>
      var k := Target(pos, |nodes|);
      h == head && nodes' == nodes[..k] + nodes[k + 1..]
    ensures pos != 1 && |nodes| >= 2 && Target(pos, |nodes|) == 0 ==> h == nodes[1] && nodes' == nodes[1..]
  {
    if head == null {
      return null, [];
    }
    if pos == 1 {
      h, nodes' := DeleteHeadConstantFixed(head, nodes);
      return;
    }
    var curr;
    ghost var j;
    curr, j := Walk(head, nodes, pos - 2);
    if curr.next == head {
      h := head.next;
    } else {
      h := head;
    }
    nodes' := Unlink(head, nodes, curr, j);
  }

  /** On the cycle [x, y], deleting position 3 returns the old head holding `x`, whose
      successor now points at itself: a walk from the returned node never comes back. */
  method DeletePastEnd(x: int, y: int) returns (h: Node?)
    ensures h != null && h.data == x && h.next != null && h.next != h
    ensures h.next.data == y && h.next.next == h.next
  {
    var a := new Node(x);
    var b := new Node(y);
    a.next := b;
    b.next := a;
    TargetPositions(3, 2);
    ghost var nodes';
    h, nodes' := DeletePos(a, [a, b], 3);
    assert nodes'[0].data == Data(nodes')[0];
  }

  /** On the cycle [x, y], the relinked deletion of position 3 leaves the cycle [y]. */
  method DeletePastEndRelinked(x: int, y: int) returns (arr: seq<int>)
    ensures arr == [y]
  {
    var a := new Node(x);
    var b := new Node(y);
    a.next := b;
    b.next := a;
    TargetPositions(3, 2);
    ghost var nodes';
    var h;
    h, nodes' := DeletePosRelinked(a, [a, b], 3);
    arr := ToArray(h, nodes');
  }
}

/** Doubly linked lists of src/linked-lists/doubly-linked-list.py and its TypeScript twin
    src/linked-lists/doubly-linked-list.ts. As for singly linked lists, each method takes
    the ghost sequence of nodes met by following `next` from the head; a well-formed list
    also has every `prev` pointing at the node before (null for the head). */
module DoublyLinked {
  import opened Sequences

  class Node {
    var data: int
    var prev: Node?
    var next: Node?

    constructor (data: int)
      ensures this.data == data && prev == null && next == null
    {
      this.data := data;
      prev, next := null, null;
    }
  }

  /** `nodes` are exactly the nodes met by following `next` from `head` until null. */
  ghost predicate Chain(head: Node?, nodes: seq<Node>)
    reads nodes
  {
    Distinct(nodes) &&
    (nodes == [] ==> head == null) &&
    (nodes != [] ==> head == nodes[0] && nodes[|nodes| - 1].next == null) &&
    (forall i {:trigger nodes[i].next} :: 0 <= i < |nodes| - 1 ==> nodes[i].next == nodes[i + 1])
  }

  /** Every `prev` points at the node before it, and the head's `prev` is null. */
  ghost predicate BackLinked(nodes: seq<Node>)
    reads nodes
  {
    (nodes != [] ==> nodes[0].prev == null) &&
    (forall i {:trigger nodes[i].prev} :: 0 < i < |nodes| ==> nodes[i].prev == nodes[i - 1])
  }

  /** The link invariant of a doubly linked list headed by `head`. */
  ghost predicate List(head: Node?, nodes: seq<Node>)
    reads nodes
  {
    Chain(head, nodes) && BackLinked(nodes)
  }

  /** The values held by `nodes`, in order. */
  ghost function Data(nodes: seq<Node>): seq<int>
    reads nodes
  {
    seq(|nodes|, i reads nodes requires 0 <= i < |nodes| => nodes[i].data)
  }

  /** The values of a concatenation are the concatenated values. */
  lemma DataSplit(a: seq<Node>, b: seq<Node>)
    ensures Data(a + b) == Data(a) + Data(b)
  {
  }

  /** The node at index `i`, or null just past the end. */
  ghost function At(nodes: seq<Node>, i: int): Node?
    requires 0 <= i <= |nodes|
  {
    if i < |nodes| then nodes[i] else null
  }

  /** The node before index `i`, or null before the first. */
  ghost function Before(nodes: seq<Node>, i: int): Node?
    requires 0 <= i <= |nodes|
  {
    if i == 0 then null else nodes[i - 1]
  }

  /** Collects the values from the head to the end, following `next` only. */
  method ToArray(head: Node?, ghost nodes: seq<Node>) returns (arr: seq<int>)
    requires Chain(head, nodes)
    ensures arr == Data(nodes)
  {
    arr := [];
    var curr := head;
    ghost var i := 0;
    while curr != null
      invariant 0 <= i <= |nodes| && curr == At(nodes, i)
      invariant arr == Data(nodes)[..i]
      decreases |nodes| - i
    {
      arr := arr + [curr.data];
      curr := curr.next;
      i := i + 1;
    }
  }

  /** A new head holding `data`; the old head, if any, gets it as `prev`. */
  method InsertBegin(head: Node?, ghost nodes: seq<Node>, data: int)
    returns (h: Node, ghost nodes': seq<Node>)
    requires List(head, nodes)
    modifies nodes
    ensures fresh(h) && nodes' == [h] + nodes
    ensures List(h, nodes') && Data(nodes') == [data] + old(Data(nodes))
  {
    ghost var d := Data(nodes);
    h := new Node(data);
    if head != null {
      head.prev := h;
    }
    h.next := head;
    nodes' := [h] + nodes;
    assert Data(nodes) == d;
    DataSplit([h], nodes);
  }

  /** A new last node holding `data`, whose `prev` is the old last node. */
  method InsertEnd(head: Node?, ghost nodes: seq<Node>, data: int)
    returns (h: Node, ghost nodes': seq<Node>)
    requires List(head, nodes)
    modifies nodes
    ensures head != null ==> h == head
    ensures |nodes'| == |nodes| + 1 && nodes'[..|nodes|] == nodes && fresh(nodes'[|nodes|])
    ensures List(h, nodes') && Data(nodes') == old(Data(nodes)) + [data]
  {
    var n := new Node(data);
    if head == null {
      return n, [n];
    }
    var curr := head;
    ghost var i := 0;
    while curr.next != null
      invariant 0 <= i < |nodes| && curr == nodes[i]
      decreases |nodes| - i
    {
      curr := curr.next;
      i := i + 1;
    }
    assert i == |nodes| - 1;
    nodes' := LinkLast(head, nodes, curr, n);
    h := head;
  }

  /** Links the node `n`, not yet in the list, after `last`, the list's last node. */
  method LinkLast(head: Node, ghost nodes: seq<Node>, last: Node, n: Node) returns (ghost nodes': seq<Node>)
    requires List(head, nodes) && nodes[|nodes| - 1] == last
    requires n !in nodes && n.next == null
    modifies last, n
    ensures nodes' == nodes + [n]
    ensures List(head, nodes') && Data(nodes') == old(Data(nodes)) + [old(n.data)]
  {
    ghost var d := Data(nodes);
    last.next := n;
    n.prev := last;
    nodes' := nodes + [n];
    assert Data(nodes) == d;
    DataSplit(nodes, [n]);
  }

  /** Drops the head: null for a list of zero or one node, otherwise the second node,
      whose `prev` is cleared so that it is a proper head. */
  method DeleteHead(head: Node?, ghost nodes: seq<Node>) returns (h: Node?, ghost nodes': seq<Node>)
    requires List(head, nodes)
    modifies nodes
    ensures |nodes| <= 1 ==> h == null && nodes' == []
    ensures |nodes| >= 2 ==> nodes' == nodes[1..] && Data(nodes') == old(Data(nodes))[1..]
    ensures List(h, nodes')
  {
    if head == null || head.next == null {
      return null, [];
    }
    h := head.next;
    h.prev := null;
    nodes' := nodes[1..];
  }

  /** Returns the second node as the new head and changes nothing: the forward sequence
      loses its first value, but the new head's `prev` still points at the dropped node,
      so the result is not a well-formed list. */
  method DeleteFirst(head: Node?, ghost nodes: seq<Node>) returns (h: Node?, ghost nodes': seq<Node>)
    requires List(head, nodes)
    ensures nodes == [] ==> h == null && nodes' == []
    ensures nodes != [] ==> nodes' == nodes[1..] && Data(nodes') == Data(nodes)[1..]
    ensures |nodes| <= 1 ==> h == null
    ensures |nodes| >= 2 ==> h == nodes[1] && h.data == Data(nodes)[1]
    ensures Chain(h, nodes')
    ensures |nodes| >= 2 ==> h.prev == head && !List(h, nodes')
  {
    if head == null {
      return null, [];
    }
    h, nodes' := head.next, nodes[1..];
  }

  /** On the list [x, y], the TypeScript deletion returns a head whose `prev` is still the
      removed node holding `x`. */
  method TwoNodeDeleteFirst(x: int, y: int) returns (h: Node?)
    ensures h != null && h.data == y && h.prev != null && h.prev.data == x
  {
    var head, nodes := InsertBegin(null, [], y);
    head, nodes := InsertBegin(head, nodes, x);
    assert Data(nodes) == [x, y] && head == nodes[0];
    assert head.data == Data(nodes)[0] && nodes[1].data == Data(nodes)[1];
    ghost var before := nodes;
    h, nodes := DeleteFirst(head, nodes);
    assert h == before[1];
  }

  /** On the list [x, y], the Python deletion returns a proper head holding `y`. */
  method TwoNodeDeleteHead(x: int, y: int) returns (h: Node?)
    ensures h != null && h.data == y && h.prev == null
  {
    var head, nodes := InsertBegin(null, [], y);
    head, nodes := InsertBegin(head, nodes, x);
    assert Data(nodes) == [x, y] && head == nodes[0];
    assert head.data == Data(nodes)[0] && nodes[1].data == Data(nodes)[1];
    ghost var before := nodes;
    h, nodes := DeleteHead(head, nodes);
    assert h == before[1];
  }

  /** Drops the last node: null for a list of zero or one node, otherwise the same head
      with the second-last node now ending the list. */
  method DeleteLast(head: Node?, ghost nodes: seq<Node>) returns (h: Node?, ghost nodes': seq<Node>)
    requires List(head, nodes)
    modifies nodes
    ensures |nodes| <= 1 ==> h == null && nodes' == []
    ensures |nodes| >= 2 ==> h == head && nodes' == nodes[..|nodes| - 1]
    ensures |nodes| >= 2 ==> Data(nodes') == old(Data(nodes))[..|nodes| - 1]
    ensures List(h, nodes')
  {
    if head == null || head.next == null {
      return null, [];
    }
    var curr := head;
    ghost var i := 0;
    while curr.next.next != null
      invariant 0 <= i < |nodes| - 1 && curr == nodes[i]
      decreases |nodes| - i
    {
      curr := curr.next;
      i := i + 1;
    }
    curr.next := null;
    h, nodes' := head, nodes[..|nodes| - 1];
  }

  /** The first `i` nodes have had `prev` and `next` exchanged, the others not yet. */
  ghost predicate SwappedUpTo(nodes: seq<Node>, i: int)
    reads nodes
  {
    0 <= i <= |nodes| &&
    (forall j {:trigger nodes[j].next} :: 0 <= j < i ==> nodes[j].next == Before(nodes, j)) &&
    (forall j {:trigger nodes[j].prev} :: 0 <= j < i ==> nodes[j].prev == At(nodes, j + 1)) &&
    (forall j {:trigger nodes[j].next} :: i <= j < |nodes| ==> nodes[j].next == At(nodes, j + 1)) &&
    (forall j {:trigger nodes[j].prev} :: i <= j < |nodes| ==> nodes[j].prev == Before(nodes, j))
  }

  /** A well-formed list is one where no node has been swapped yet. */
  lemma ListUnswapped(head: Node?, nodes: seq<Node>)
    requires List(head, nodes)
    ensures SwappedUpTo(nodes, 0)
  {
    forall j | 0 <= j < |nodes| ensures nodes[j].next == At(nodes, j + 1) && nodes[j].prev == Before(nodes, j) {
      if j < |nodes| - 1 {
        assert nodes[j].next == nodes[j + 1];
      }
    }
  }

  /** Once every node is swapped, the reversed node sequence is a well-formed list headed
      by the old last node. */
  lemma SwappedIsReversed(nodes: seq<Node>)
    requires Distinct(nodes) && nodes != [] && SwappedUpTo(nodes, |nodes|)
    ensures List(nodes[|nodes| - 1], Reversed(nodes))
  {
    SwappedForward(nodes);
    SwappedBackward(nodes);
  }

  /** The `next` half of SwappedIsReversed. */
  lemma SwappedForward(nodes: seq<Node>)
    requires Distinct(nodes) && nodes != [] && SwappedUpTo(nodes, |nodes|)
    ensures Chain(nodes[|nodes| - 1], Reversed(nodes))
  {
    ReversedAt(nodes);
    DistinctReversed(nodes);
    var r := Reversed(nodes);
    var n := |nodes|;
    forall i | 0 <= i < n - 1 ensures r[i].next == r[i + 1] {
      assert r[i] == nodes[n - 1 - i] && r[i + 1] == nodes[n - 2 - i];
    }
  }

  /** The `prev` half of SwappedIsReversed. */
  lemma SwappedBackward(nodes: seq<Node>)
    requires nodes != [] && SwappedUpTo(nodes, |nodes|)
    ensures BackLinked(Reversed(nodes))
  {
    ReversedAt(nodes);
    var r := Reversed(nodes);
    var n := |nodes|;
    forall i | 0 < i < n ensures r[i].prev == r[i - 1] {
      assert r[i] == nodes[n - 1 - i] && r[i - 1] == nodes[n - i];
    }
  }

  /** The values of the reversed nodes are the reversed values. */
  lemma DataReversed(nodes: seq<Node>)
    ensures Data(Reversed(nodes)) == Reversed(Data(nodes))
  {
    ReversedAt(nodes);
    ReversedAt(Data(nodes));
  }

  /** Exchanges `prev` and `next` of the node at index `i` and returns its old successor. */
  method SwapLinks(curr: Node, ghost nodes: seq<Node>, ghost i: int) returns (next: Node?)
    requires Distinct(nodes) && SwappedUpTo(nodes, i) && i < |nodes| && curr == nodes[i]
    modifies curr
    ensures SwappedUpTo(nodes, i + 1) && next == At(nodes, i + 1) && curr.data == old(curr.data)
  {
    curr.prev, curr.next := curr.next, curr.prev;
    next := curr.prev;
  }

  /** The loop of `reverse`: swaps the links of every node from the head on and returns
      the last node it swapped. */
  method SwapAll(head: Node, ghost nodes: seq<Node>) returns (last: Node)
    requires Distinct(nodes) && SwappedUpTo(nodes, 0) && nodes != [] && head == nodes[0]
    modifies nodes
    ensures SwappedUpTo(nodes, |nodes|) && last == nodes[|nodes| - 1]
    ensures Data(nodes) == old(Data(nodes))
  {
    ghost var d := Data(nodes);
    var curr: Node? := head;
    var prev: Node := head;
    ghost var i := 0;
    while curr != null
      invariant SwappedUpTo(nodes, i) && curr == At(nodes, i)
      invariant i > 0 ==> prev == nodes[i - 1]
      invariant forall j :: 0 <= j < |nodes| ==> nodes[j].data == d[j]
      decreases |nodes| - i
    {
      prev := curr;
      curr := SwapLinks(curr, nodes, i);
      i := i + 1;
    }
    assert Data(nodes) == d;
    last := prev;
  }

  /** Reverses the list by swapping `prev` and `next` on every node; a list of zero or one
      node is returned as it is. */
  method Reverse(head: Node?, ghost nodes: seq<Node>) returns (h: Node?, ghost nodes': seq<Node>)
    requires List(head, nodes)
    modifies nodes
    ensures |nodes| <= 1 ==> h == head
    ensures nodes' == Reversed(nodes)
    ensures List(h, nodes') && Data(nodes') == Reversed(old(Data(nodes)))
  {
    if head == null || head.next == null {
      ReversedAt(nodes);
      return head, nodes;
    }
    ListUnswapped(head, nodes);
    h := SwapAll(head, nodes);
    SwappedIsReversed(nodes);
    DataReversed(nodes);
    nodes' := Reversed(nodes);
  }
}

/** Singly linked lists of src/linked-lists/singly-linked-list.ts and its Python twin
    src/linked-lists/singly-linked-list.py. A list is given by its head node (or null);
    each method also takes, as a ghost argument, the sequence of nodes met by following
    `next` from the head, and states how the sequence of `data` values changes. */
module SinglyLinked {
  import opened Sequences
  import Permutations

  class Node {
    var data: int
    var next: Node?

    constructor (data: int, next: Node?)
      ensures this.data == data && this.next == next
    {
      this.data := data;
      this.next := next;
    }
  }

  /** `nodes` are exactly the nodes met by following `next` from `head` until null: each
      node occurs once, so the list is acyclic and null-terminated. */
  ghost predicate Chain(head: Node?, nodes: seq<Node>)
    reads nodes
  {
    Distinct(nodes) &&
    (nodes == [] ==> head == null) &&
    (nodes != [] ==> head == nodes[0] && nodes[|nodes| - 1].next == null) &&
    (forall i {:trigger nodes[i].next} :: 0 <= i < |nodes| - 1 ==> nodes[i].next == nodes[i + 1])
  }

  /** The values held by `nodes`, in order. */
  ghost function Data(nodes: seq<Node>): seq<int>
    reads nodes
  {
    seq(|nodes|, i reads nodes requires 0 <= i < |nodes| => nodes[i].data)
  }

  /** The node at index `i` of the chain, or null just past its end. */
  ghost function At(nodes: seq<Node>, i: int): Node?
    requires 0 <= i <= |nodes|
  {
    if i < |nodes| then nodes[i] else null
  }

  /** Collects the values from the head to the end of the list. */
  method ToArray(head: Node?, ghost nodes: seq<Node>) returns (arr: seq<int>)
    requires Chain(head, nodes)
    ensures arr == Data(nodes)
  {
    arr := [];
    var curr := head;
    ghost var i := 0;
    while curr != null
      invariant 0 <= i <= |nodes| && curr == At(nodes, i)
      invariant arr == Data(nodes)[..i]
      decreases |nodes| - i
    {
      arr := arr + [curr.data];
      curr := curr.next;
      i := i + 1;
    }
  }

  /** A new node holding `data`, in front of `head`. */
  method InsertBegin(head: Node?, ghost nodes: seq<Node>, data: int)
    returns (h: Node, ghost nodes': seq<Node>)
    requires Chain(head, nodes)
    ensures fresh(h) && nodes' == [h] + nodes
    ensures Chain(h, nodes') && Data(nodes') == [data] + Data(nodes)
  {
    h := new Node(data, head);
    nodes' := [h] + nodes;
  }

  /** Links `n` in right after `curr`, the node at index `i`. */
  method InsertAfter(head: Node, ghost nodes: seq<Node>, curr: Node, ghost i: int, n: Node)
    returns (ghost nodes': seq<Node>)
    requires Chain(head, nodes) && 0 <= i < |nodes| && curr == nodes[i] && n !in nodes
    modifies curr, n
    ensures nodes' == nodes[..i + 1] + [n] + nodes[i + 1..]
    ensures Chain(head, nodes') && Data(nodes') == InsertAt(old(Data(nodes)), i + 1, old(n.data))
  {
    ghost var d := Data(nodes);
    n.next := curr.next;
    curr.next := n;
    nodes' := nodes[..i + 1] + [n] + nodes[i + 1..];
    assert Data(nodes) == d;
    DataInsert(nodes, i + 1, n);
  }

  /** The values of a chain with one node inserted are the values with its value inserted. */
  lemma DataInsert(nodes: seq<Node>, k: int, n: Node)
    requires 0 <= k <= |nodes|
    ensures Data(nodes[..k] + [n] + nodes[k..]) == InsertAt(Data(nodes), k, n.data)
  {
  }

  /** A new node holding `data` after the last node; the head is kept unless the list was
      empty. */
  method InsertEnd(head: Node?, ghost nodes: seq<Node>, data: int)
    returns (h: Node, ghost nodes': seq<Node>)
    requires Chain(head, nodes)
    modifies nodes
    ensures head != null ==> h == head
    ensures |nodes'| == |nodes| + 1 && nodes'[..|nodes|] == nodes && fresh(nodes'[|nodes|])
    ensures Chain(h, nodes') && Data(nodes') == old(Data(nodes)) + [data]
  {
    var n := new Node(data, null);
    if head == null {
      return n, [n];
    }
    var curr := head;
    ghost var i := 0;
    while curr.next != null
      invariant 0 <= i < |nodes| && curr == nodes[i]
      decreases |nodes| - i
    {
      curr := curr.next;
      i := i + 1;
    }
    nodes' := InsertAfter(head, nodes, curr, i, n);
    h := head;
  }

  /** Inserts `data` at 1-based position `pos`. Position 1 prepends; a position past
      `|nodes| + 1` leaves the list as it is; a position below 1 walks no node and so
      inserts after the head, like position 2. */
  method InsertPos(head: Node?, ghost nodes: seq<Node>, pos: int, data: int)
    returns (h: Node?, ghost nodes': seq<Node>)
    requires Chain(head, nodes)
    requires head != null || pos == 1
    modifies nodes
    ensures Chain(h, nodes')
    ensures pos == 1 ==> h != null && fresh(h) && nodes' == [h] + nodes && Data(nodes') == [data] + old(Data(nodes))
    ensures 2 <= pos <= |nodes| + 1 ==> h == head && |nodes'| == |nodes| + 1 && fresh(nodes'[pos - 1])
    ensures 2 <= pos <= |nodes| + 1 ==> nodes' == InsertAt(nodes, pos - 1, nodes'[pos - 1])
    ensures 2 <= pos <= |nodes| + 1 ==> Data(nodes') == InsertAt(old(Data(nodes)), pos - 1, data)
    ensures pos < 1 ==> h == head && |nodes'| == |nodes| + 1 && fresh(nodes'[1])
    ensures pos < 1 ==> nodes' == InsertAt(nodes, 1, nodes'[1]) && Data(nodes') == InsertAt(old(Data(nodes)), 1, data)
    ensures pos > |nodes| + 1 ==> h == head && nodes' == nodes && Data(nodes') == old(Data(nodes))
  {
    var n := new Node(data, null);
    if pos == 1 {
      n.next := head;
      return n, [n] + nodes;
    }
    var curr := head;
    var i := 0;
    while i < pos - 2
      invariant 0 <= i < |nodes| && curr == nodes[i]
      invariant i == 0 || i <= pos - 2
      decreases pos - 2 - i
    {
      curr := curr.next;
      if curr == null {
        return head, nodes;
      }
      i := i + 1;
    }
    nodes' := InsertAfter(head, nodes, curr, i, n);
    h := head;
  }

  /** The list without its first node; null stays null. */
  method DeleteFirst(head: Node?, ghost nodes: seq<Node>) returns (h: Node?, ghost nodes': seq<Node>)
    requires Chain(head, nodes)
    ensures nodes == [] ==> h == null && nodes' == []
    ensures nodes != [] ==> nodes' == nodes[1..] && Data(nodes') == Data(nodes)[1..]
    ensures |nodes| <= 1 ==> h == null
    ensures |nodes| >= 2 ==> h == nodes[1] && h.data == Data(nodes)[1]
    ensures Chain(h, nodes')
  {
    if head == null {
      return null, [];
    }
    h, nodes' := head.next, nodes[1..];
  }

  /** The list without its last node: null for a list of zero or one node, otherwise the
      same head with the second-last node now ending the list. */
  method DeleteLast(head: Node?, ghost nodes: seq<Node>) returns (h: Node?, ghost nodes': seq<Node>)
    requires Chain(head, nodes)
    modifies nodes
    ensures |nodes| <= 1 ==> h == null && nodes' == []
    ensures |nodes| >= 2 ==> h == head && nodes' == nodes[..|nodes| - 1]
    ensures |nodes| >= 2 ==> Data(nodes') == old(Data(nodes))[..|nodes| - 1]
    ensures Chain(h, nodes')
  {
    if head == null || head.next == null {
      return null, [];
    }
    var curr := head;
    ghost var i := 0;
    while curr.next.next != null
      invariant 0 <= i < |nodes| - 1 && curr == nodes[i]
      decreases |nodes| - i
    {
      curr := curr.next;
      i := i + 1;
    }
    curr.next := null;
    h, nodes' := head, nodes[..|nodes| - 1];
  }

  /** The 1-based position of the first node holding `x`, or -1 when no node holds it. */
  method Search(head: Node?, ghost nodes: seq<Node>, x: int) returns (pos: int)
    requires Chain(head, nodes)
    ensures pos == -1 <==> x !in Data(nodes)
    ensures pos != -1 ==> 1 <= pos <= |nodes| && Data(nodes)[pos - 1] == x && x !in Data(nodes)[..pos - 1]
  {
    pos := 1;
    var curr := head;
    while curr != null
      invariant 1 <= pos <= |nodes| + 1 && curr == At(nodes, pos - 1)
      invariant x !in Data(nodes)[..pos - 1]
      decreases |nodes| + 1 - pos
    {
      if curr.data == x {
        assert Data(nodes)[pos - 1] == x;
        return;
      }
      pos := pos + 1;
      curr := curr.next;
    }
    assert Data(nodes)[..pos - 1] == Data(nodes);
    pos := -1;
  }

  /** The length of the longest prefix of `s` whose values are all below `x`. */
  function LessRun(s: seq<int>, x: int): (k: nat)
    ensures k <= |s|
    ensures forall i :: 0 <= i < k ==> s[i] < x
    ensures k < |s| ==> s[k] >= x
  {
    if s == [] || s[0] >= x then 0 else 1 + LessRun(s[1..], x)
  }

  /** The index `sortedInsert` gives `x`: the front when `x` is below the head's value,
      otherwise just before the first value after the head that is not below `x`. */
  function SortedSlot(s: seq<int>, x: int): (k: nat)
    ensures k <= |s|
  {
    if s == [] || x < s[0] then 0 else 1 + LessRun(s[1..], x)
  }

  /** Inserting at the sorted slot keeps a sorted sequence sorted and adds one `x`. */
  lemma SortedSlotKeepsSorted(s: seq<int>, x: int)
    requires Permutations.Sorted(s)
    ensures Permutations.Sorted(InsertAt(s, SortedSlot(s, x), x))
    ensures multiset(InsertAt(s, SortedSlot(s, x), x)) == multiset(s) + multiset{x}
  {
    var k := SortedSlot(s, x);
    InsertAtParts(s, k, x);
    assert forall i :: 0 <= i < k ==> s[i] <= x by {
      if k > 0 {
        forall i | 1 <= i < k ensures s[i] < x {
          assert s[i] == s[1..][i - 1];
        }
      }
    }
    assert forall i :: k <= i < |s| ==> x <= s[i] by {
      if k < |s| {
        assert x <= s[k] by {
          if k > 0 {
            assert s[k] == s[1..][k - 1];
          }
        }
      }
    }
    var r := InsertAt(s, k, x);
    forall i, j | 0 <= i < j < |r| ensures r[i] <= r[j] {
      if j < k {
        assert r[i] == s[i] && r[j] == s[j];
      } else if j == k {
        assert r[i] == s[i];
      } else if i < k {
        assert r[i] == s[i] && r[j] == s[j - 1];
      } else if i == k {
        assert r[j] == s[j - 1];
      } else {
        assert r[i] == s[i - 1] && r[j] == s[j - 1];
      }
    }
  }

  /** Places `data` at its sorted slot; on a sorted list the result is sorted (see
      SortedSlotKeepsSorted). */
  method SortedInsert(head: Node?, ghost nodes: seq<Node>, data: int)
    returns (h: Node, ghost nodes': seq<Node>)
    requires Chain(head, nodes)
    modifies nodes
    ensures Chain(h, nodes')
    ensures var k := SortedSlot(old(Data(nodes)), data);
      |nodes'| == |nodes| + 1 && fresh(nodes'[k]) && nodes' == InsertAt(nodes, k, nodes'[k])
    ensures Data(nodes') == InsertAt(old(Data(nodes)), SortedSlot(old(Data(nodes)), data), data)
  {
    var n := new Node(data, null);
    if head == null {
      return n, [n];
    }
    if data < head.data {
      n.next := head;
      return n, [n] + nodes;
    }
    var curr, i := SlotPredecessor(head, nodes, data);
    nodes' := InsertAfter(head, nodes, curr, i, n);
    h := head;
  }

  /** Walks from a head whose value is not above `data` to the node after which
      `sortedInsert` links the new node. */
  method SlotPredecessor(head: Node, ghost nodes: seq<Node>, data: int) returns (curr: Node, ghost i: nat)
    requires Chain(head, nodes) && head.data <= data
    ensures i < |nodes| && curr == nodes[i] && i + 1 == SortedSlot(Data(nodes), data)
    ensures curr.data <= data && (curr.next == null || data <= curr.next.data)
  {
    curr := head;
    i := 0;
    while curr.next != null && curr.next.data < data
      invariant i < |nodes| && curr == nodes[i] && curr.data <= data
      invariant SortedSlot(Data(nodes), data) == i + 1 + LessRun(Data(nodes)[i + 1..], data)
      decreases |nodes| - i
    {
      assert Data(nodes)[i + 1..][1..] == Data(nodes)[i + 2..];
      curr := curr.next;
      i := i + 1;
    }
  }

  /** Reverses the values in place: the nodes and their links stay, the values are pushed
      on a stack in a first pass and popped back in a second. */
  method ReverseUsingStack(head: Node?, ghost nodes: seq<Node>) returns (h: Node?)
    requires Chain(head, nodes)
    modifies nodes
    ensures h == head && Chain(h, nodes)
    ensures Data(nodes) == Reversed(old(Data(nodes)))
  {
    ghost var d := Data(nodes);
    var stack: seq<int> := [];
    var curr := head;
    ghost var i := 0;
    while curr != null
      invariant 0 <= i <= |nodes| && curr == At(nodes, i)
      invariant stack == d[..i]
      decreases |nodes| - i
    {
      stack := stack + [curr.data];
      curr := curr.next;
      i := i + 1;
    }
    curr := head;
    i := 0;
    while curr != null
      invariant 0 <= i <= |nodes| && curr == At(nodes, i)
      invariant Chain(head, nodes)
      invariant stack == d[..|nodes| - i]
      invariant forall j :: 0 <= j < i ==> nodes[j].data == d[|nodes| - 1 - j]
      decreases |nodes| - i
    {
      curr.data := stack[|stack| - 1];
      stack := stack[..|stack| - 1];
      curr := curr.next;
      i := i + 1;
    }
    ReversedAt(d);
    h := head;
  }

  /** The values of a concatenation are the concatenated values. */
  lemma DataSplit(a: seq<Node>, b: seq<Node>)
    ensures Data(a + b) == Data(a) + Data(b)
  {
  }

  /** Past the head, the chain goes on from the head's successor. */
  lemma ChainTail(head: Node, nodes: seq<Node>)
    requires Chain(head, nodes)
    ensures nodes != [] && head.next == At(nodes, 1) && head !in nodes[1..]
    ensures Chain(head.next, nodes[1..])
  {
    assert nodes != [];
    forall i | 0 <= i < |nodes| - 2 ensures nodes[1..][i].next == nodes[1..][i + 1] {
      assert nodes[1..][i] == nodes[i + 1];
    }
  }

  /** The reversal so far and what is left to reverse, both as chains with no node in
      common. */
  ghost predicate Halves(curr: Node?, rest: seq<Node>, prev: Node?, done: seq<Node>)
    reads rest, done
  {
    Chain(curr, rest) && Chain(prev, done) && Apart(rest, done)
  }

  /** One step of both reversals: the first node of `rest` is turned round to point at
      `prev` and so moves to the front of `done`. */
  method Relink(curr: Node, prev: Node?, ghost rest: seq<Node>, ghost done: seq<Node>)
    returns (next: Node?, ghost rest': seq<Node>, ghost done': seq<Node>)
    requires Halves(curr, rest, prev, done)
    modifies curr
    ensures rest != [] && rest' == rest[1..] && done' == [curr] + done
    ensures Halves(next, rest', curr, done')
    ensures Reversed(rest') + done' == Reversed(rest) + done
    ensures Reversed(Data(rest')) + Data(done') == Reversed(old(Data(rest))) + old(Data(done))
  {
    ChainTail(curr, rest);
    rest', done' := rest[1..], [curr] + done;
    ghost var d, dn := Data(rest), Data(done);
    assert rest == [curr] + rest';
    DataSplit([curr], rest');
    assert Data(rest') == d[1..] && d[0] == curr.data;
    ApartStep(rest, done);
    ReversedStep(rest, done);
    ReversedStep(d, dn);
    next := curr.next;
    curr.next := prev;
    DataSplit([curr], done);
    assert Data([curr]) == [d[0]];
  }

  /** Reverses the links in place; the old last node becomes the head. */
  method Reverse(head: Node?, ghost nodes: seq<Node>) returns (h: Node?, ghost nodes': seq<Node>)
    requires Chain(head, nodes)
    modifies nodes
    ensures nodes' == Reversed(nodes)
    ensures Chain(h, nodes') && Data(nodes') == Reversed(old(Data(nodes)))
  {
    var curr := head;
    var prev: Node? := null;
    ghost var rest, done := nodes, [];
    while curr != null
      invariant Halves(curr, rest, prev, done) && rest == nodes[|nodes| - |rest|..]
      invariant Reversed(rest) + done == Reversed(nodes)
      invariant Reversed(Data(rest)) + Data(done) == Reversed(old(Data(nodes)))
      decreases |rest|
    {
      var next;
      next, rest, done := Relink(curr, prev, rest, done);
      prev := curr;
      curr := next;
    }
    h, nodes' := prev, done;
  }

  /** Reverses the links from `curr` on, hanging the already reversed part `done`, headed
      by `prev`, behind them; called with `prev` null and `done` empty, it reverses the
      whole list. */
  method ReverseRec(curr: Node?, prev: Node?, ghost rest: seq<Node>, ghost done: seq<Node>)
    returns (h: Node?, ghost nodes': seq<Node>)
    requires Halves(curr, rest, prev, done)
    modifies rest
    ensures nodes' == Reversed(rest) + done
    ensures Chain(h, nodes') && Data(nodes') == Reversed(old(Data(rest))) + old(Data(done))
    decreases |rest|
  {
    if curr == null {
      return prev, done;
    }
    var next, rest', done' := Relink(curr, prev, rest, done);
    h, nodes' := ReverseRec(next, curr, rest', done');
  }
}

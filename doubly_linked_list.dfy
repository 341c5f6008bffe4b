/** The doubly-linked list of app/utils/doublyLinkedList.ts: heap nodes
    linked both ways, a list object holding `head`, `tail` and a cached
    `length`, and the operations that rewire them in place. */
module LinkedList {
  import opened ListSpec

  /** One list cell: a value and the links to its neighbours. */
  class Node {
    var value: int
    var next: Node?
    var prev: Node?

    constructor (value: int)
      ensures this.value == value && next == null && prev == null
    {
      this.value := value;
      next := null;
      prev := null;
    }
  }

  /** No node occurs twice in `ns`. */
  ghost predicate Distinct(ns: seq<Node>)
  {
    forall i, j :: 0 <= i < j < |ns| ==> ns[i] != ns[j]
  }

  /** Neighbours in `ns` point at each other: `next` forwards, `prev` back. */
  ghost predicate Linked(ns: seq<Node>)
    reads ns`next, ns`prev
  {
    forall i, j :: 0 <= i && j == i + 1 < |ns| ==> ns[i].next == ns[j] && ns[j].prev == ns[i]
  }

  /** Like Linked, but the links to and from position k are not constrained. */
  ghost predicate LinkedExcept(ns: seq<Node>, k: int)
    reads ns`next, ns`prev
  {
    forall i, j :: 0 <= i && j == i + 1 < |ns| && i != k && j != k ==>
      ns[i].next == ns[j] && ns[j].prev == ns[i]
  }

  /** The nodes `ns` hold the values `vs`, position by position. */
  ghost predicate Holds(ns: seq<Node>, vs: seq<int>)
    reads ns`value
  {
    |ns| == |vs| && forall i :: 0 <= i < |ns| ==> ns[i].value == vs[i]
  }

  /** A fresh node spliced in at any position keeps the nodes distinct. */
  lemma DistinctInserted(ns: seq<Node>, k: int, n: Node)
    requires Distinct(ns) && n !in ns && 0 <= k <= |ns|
    ensures Distinct(ns[..k] + [n] + ns[k..])
  {
    var r := ns[..k] + [n] + ns[k..];
    forall i, j | 0 <= i < j < |r| ensures r[i] != r[j] {
      if i < k && j > k {
        assert r[i] == ns[i] && r[j] == ns[j - 1];
      } else if i > k {
        assert r[i] == ns[i - 1] && r[j] == ns[j - 1];
      }
    }
  }

  /** Dropping one position keeps the nodes distinct. */
  lemma DistinctRemoved(ns: seq<Node>, k: int)
    requires Distinct(ns) && 0 <= k < |ns|
    ensures Distinct(ns[..k] + ns[k + 1..])
  {
    var r := ns[..k] + ns[k + 1..];
    forall i, j | 0 <= i < j < |r| ensures r[i] != r[j] {
      if i < k && j >= k {
        assert r[i] == ns[i] && r[j] == ns[j + 1];
      } else if i >= k {
        assert r[i] == ns[i + 1] && r[j] == ns[j + 1];
      }
    }
  }

  /** Linking a node in between positions k - 1 and k of a chain, whose
      other links are intact, gives a chain one longer. */
  lemma LinkedInserted(ns: seq<Node>, k: int, n: Node)
    requires 0 < k < |ns|
    requires forall i, j :: 0 <= i && j == i + 1 < |ns| && j != k ==>
      ns[i].next == ns[j] && ns[j].prev == ns[i]
    requires ns[k - 1].next == n && n.prev == ns[k - 1]
    requires n.next == ns[k] && ns[k].prev == n
    ensures Linked(ns[..k] + [n] + ns[k..])
  {
    var r := ns[..k] + [n] + ns[k..];
    forall i, j | 0 <= i && j == i + 1 < |r| ensures r[i].next == r[j] && r[j].prev == r[i] {
      if j < k {
        assert r[i] == ns[i] && r[j] == ns[j];
      } else if i > k {
        assert r[i] == ns[i - 1] && r[j] == ns[j - 1];
      }
    }
  }

  /** A node holding `v`, spliced in at position k, matches `v` spliced
      into the values at k. */
  lemma HoldsInserted(ns: seq<Node>, vs: seq<int>, k: int, n: Node, v: int)
    requires Holds(ns, vs) && 0 <= k <= |ns| && n.value == v
    ensures Holds(ns[..k] + [n] + ns[k..], vs[..k] + [v] + vs[k..])
  {
    var r, w := ns[..k] + [n] + ns[k..], vs[..k] + [v] + vs[k..];
    forall i | 0 <= i < |r| ensures r[i].value == w[i] {
      if i < k {
        assert r[i] == ns[i] && w[i] == vs[i];
      } else if i > k {
        assert r[i] == ns[i - 1] && w[i] == vs[i - 1];
      }
    }
  }

  /** Dropping position k from a chain whose links not involving k are
      intact, and whose two neighbours of k point at each other, gives a
      chain one shorter. */
  lemma LinkedRemoved(ns: seq<Node>, k: int)
    requires 0 <= k < |ns| && LinkedExcept(ns, k)
    requires 0 < k < |ns| - 1 ==> ns[k - 1].next == ns[k + 1] && ns[k + 1].prev == ns[k - 1]
    ensures Linked(ns[..k] + ns[k + 1..])
  {
    var r := ns[..k] + ns[k + 1..];
    forall i, j | 0 <= i && j == i + 1 < |r| ensures r[i].next == r[j] && r[j].prev == r[i] {
      if j < k {
        assert r[i] == ns[i] && r[j] == ns[j];
      } else if i >= k {
        assert r[i] == ns[i + 1] && r[j] == ns[j + 1];
      } else {
        assert r[i] == ns[k - 1] && r[j] == ns[k + 1];
      }
    }
  }

  /** Dropping position k from nodes and values alike keeps them matched. */
  lemma HoldsRemoved(ns: seq<Node>, vs: seq<int>, k: int)
    requires Holds(ns, vs) && 0 <= k < |ns|
    ensures Holds(ns[..k] + ns[k + 1..], vs[..k] + vs[k + 1..])
  {
    var r, w := ns[..k] + ns[k + 1..], vs[..k] + vs[k + 1..];
    forall i | 0 <= i < |r| ensures r[i].value == w[i] {
      if i < k {
        assert r[i] == ns[i] && w[i] == vs[i];
      } else {
        assert r[i] == ns[i + 1] && w[i] == vs[i + 1];
      }
    }
  }

  /** `head`, `tail` and `length` describe the distinct, doubly linked
      nodes `ns`, which hold the values `vs`. `tail` is constrained only while
      the list is non-empty: removing the only element clears `head` but
      leaves `tail` pointing at the removed node. */
  ghost predicate Chain(head: Node?, tail: Node?, length: int, ns: seq<Node>, vs: seq<int>)
    reads ns
  {
    && length == |ns|
    && (length == 0 <==> head == null)
    && (length > 0 ==>
          && head == ns[0] && head.prev == null
          && tail == ns[length - 1] && tail.next == null)
    && Distinct(ns)
    && Linked(ns)
    && Holds(ns, vs)
  }

  class DoublyLinkedList {
    var head: Node?
    var tail: Node?
    var length: int

    // The nodes reachable from `head`, in order, and their values.
    ghost var nodes: seq<Node>
    ghost var Contents: seq<int>

    /** The list invariant: the fields describe the chain `nodes`, which holds `Contents`. */
    ghost predicate Valid()
      reads this, nodes
    {
      Chain(head, tail, length, nodes, Contents)
    }

    /** The node at position k, as a frame: empty when k is out of range. */
    ghost function At(k: int): set<Node>
      reads this
    {
      if 0 <= k < |nodes| then {nodes[k]} else {}
    }

    constructor ()
      ensures Valid()
      ensures head == null && tail == null && length == 0
      ensures nodes == [] && Contents == []
    {
      head := null;
      tail := null;
      length := 0;
      nodes := [];
      Contents := [];
    }

    /** Adds `value` after the last node; only the old tail is rewired. */
    method Append(value: int)
      requires Valid()
      modifies this, At(length - 1)
      ensures Valid()
      ensures Contents == old(Contents) + [value]
      ensures length == old(length) + 1
      ensures tail != null && fresh(tail) && tail.value == value && tail.next == null
      ensures nodes == old(nodes) + [tail]
      ensures old(head) == null ==> head == tail
      ensures old(head) != null ==> head == old(head) && tail.prev == old(tail)
    {
      var newNode := new Node(value);
      if head == null {
        head := newNode;
        tail := newNode;
      } else {
        newNode.prev := tail;
        if tail != null {
          tail.next := newNode;
        }
        tail := newNode;
      }
      length := length + 1;
      nodes := nodes + [newNode];
      Contents := Contents + [value];
    }

    /** Adds `value` before the first node; only the old head is rewired. */
    method Prepend(value: int)
      requires Valid()
      modifies this, At(0)
      ensures Valid()
      ensures Contents == [value] + old(Contents)
      ensures length == old(length) + 1
      ensures head != null && fresh(head) && head.value == value && head.prev == null
      ensures nodes == [head] + old(nodes)
      ensures old(head) == null ==> tail == head
      ensures old(head) != null ==> tail == old(tail) && head.next == old(head)
    {
      var newNode := new Node(value);
      if head == null {
        head := newNode;
        tail := newNode;
      } else {
        newNode.next := head;
        head.prev := newNode;
        head := newNode;
      }
      length := length + 1;
      nodes := [newNode] + nodes;
      Contents := [value] + Contents;
    }

    /** Walks `next` links from the head; null exactly for an index outside [0, length). */
    method TraverseToIndex(index: int) returns (node: Node?)
      requires Valid()
      ensures node == null <==> index < 0 || index >= length
      ensures 0 <= index < length ==> node == nodes[index] && node.value == Contents[index]
    {
      if index < 0 || index >= length {
        return null;
      }
      var currentNode := head;
      var i := 0;
      while i != index && currentNode != null
        invariant 0 <= i <= index
        invariant currentNode == nodes[i]
        decreases index - i
      {
        currentNode := currentNode.next;
        i := i + 1;
      }
      return currentNode;
    }

    /** Inserts `value` so that it lands at Landing(length, index); a
        negative index leaves the list as it was. Rewires at most the two
        nodes around the landing position. */
    method Insert(value: int, index: int)
      requires Valid()
      modifies this,
        if index == 0 then At(0)
        else if index >= length then At(length - 1)
        else if index > 0 then At(index - 1) + At(index)
        else {}
      ensures Valid()
      ensures Contents == Inserted(old(Contents), value, index)
      ensures length == old(length) + (if index < 0 then 0 else 1)
      ensures index < 0 ==> unchanged(this)
      ensures index >= 0 ==>
        var p := Landing(old(length), index);
        && fresh(nodes[p])
        && nodes == old(nodes)[..p] + [nodes[p]] + old(nodes)[p..]
    {
      if index == 0 {
        Prepend(value);
        InsertedAtZero(old(Contents), value);
        assert old(nodes)[..0] == [] && old(nodes)[0..] == old(nodes);
      } else if index >= length {
        Append(value);
        InsertedPastEnd(old(Contents), value, index);
        assert old(nodes)[..old(length)] == old(nodes) && old(nodes)[old(length)..] == [];
      } else {
        var newNode := new Node(value);
        var leader := TraverseToIndex(index - 1);
        if leader == null || leader.next == null {
          // taken exactly when index < 0: the lookup of index - 1 fails
          return;
        }
        LinkAfter(leader, newNode, index);
        InsertedInterior(old(Contents), value, index);
      }
    }

    /** Insert's splice: rewires `leader`, at position index - 1, and its
        successor so that `newNode` stands between them. */
    method LinkAfter(leader: Node, newNode: Node, index: int)
      requires Valid() && 0 < index < length && leader == nodes[index - 1]
      requires newNode !in nodes
      modifies this, leader, nodes[index], newNode
      ensures Valid()
      ensures nodes == old(nodes[..index] + [newNode] + nodes[index..])
      ensures Contents == old(Contents[..index] + [newNode.value] + Contents[index..])
      ensures length == old(length) + 1
      ensures head == old(head) && tail == old(tail)
    {
      ghost var ns, cs := nodes, Contents;
      var follower := leader.next;
      leader.next := newNode;
      newNode.prev := leader;
      newNode.next := follower;
      follower.prev := newNode;
      length := length + 1;
      nodes := nodes[..index] + [newNode] + nodes[index..];
      Contents := Contents[..index] + [newNode.value] + Contents[index..];
      // the links between the other nodes are untouched
      forall i, j | 0 <= i && j == i + 1 < |ns| && j != index
        ensures ns[i].next == ns[j] && ns[j].prev == ns[i]
      {
        assert ns[i] != ns[index - 1] && ns[j] != ns[index];
      }
      LinkedInserted(ns, index, newNode);
      DistinctInserted(ns, index, newNode);
      HoldsInserted(ns, cs, index, newNode, newNode.value);
    }

    /** Removes the node at `index`; out of range, nothing changes. Only
        the neighbours of the removed node are rewired. */
    method Remove(index: int)
      requires Valid()
      modifies this, if 0 <= index < length then At(index - 1) + At(index + 1) else {}
      ensures Valid()
      ensures Contents == Removed(old(Contents), index)
      ensures length == if 0 <= index < old(length) then old(length) - 1 else old(length)
      ensures nodes == if 0 <= index < old(length) then old(nodes[..index] + nodes[index + 1..]) else old(nodes)
      ensures !(0 <= index < old(length)) ==> unchanged(this)
      ensures index == 0 < old(length) ==> tail == old(tail)
    {
      if index < 0 || index >= length {
        return;
      }
      if index == 0 && head != null {
        UnlinkHead();
      } else if index == length - 1 && tail != null {
        UnlinkTail();
      } else {
        assert 0 < index < length - 1;
        var leader := TraverseToIndex(index - 1);
        assert leader.next == nodes[index];
        if leader == null || leader.next == null {
          // unreachable: index - 1 and index are both positions of the list
          return;
        }
        UnlinkAfter(leader, index);
      }
    }

    /** The head branch of Remove: the second node becomes the head and
        `tail` is left as it was, even when it was the node removed. */
    method UnlinkHead()
      requires Valid() && length > 0
      modifies this, At(1)
      ensures Valid()
      ensures nodes == old(nodes[1..]) && Contents == old(Contents[1..])
      ensures length == old(length) - 1 && tail == old(tail)
    {
      ghost var ns, cs := nodes, Contents;
      head := head.next;
      if head != null {
        head.prev := null;
      }
      length := length - 1;
      nodes, Contents := nodes[1..], Contents[1..];
      forall i, j | 0 <= i && j == i + 1 < |nodes|
        ensures nodes[i].next == nodes[j] && nodes[j].prev == nodes[i]
      {
        assert ns[j + 1] != ns[1];
      }
    }

    /** The tail branch of Remove: the next-to-last node becomes the tail. */
    method UnlinkTail()
      requires Valid() && length > 1
      modifies this, At(length - 2)
      ensures Valid()
      ensures nodes == old(nodes[..length - 1]) && Contents == old(Contents[..length - 1])
      ensures length == old(length) - 1 && head == old(head)
    {
      ghost var ns, cs, k := nodes, Contents, length - 1;
      tail := tail.prev;
      if tail != null {
        tail.next := null;
      }
      length := length - 1;
      nodes, Contents := nodes[..k], Contents[..k];
      forall i, j | 0 <= i && j == i + 1 < |ns| && i != k && j != k
        ensures ns[i].next == ns[j] && ns[j].prev == ns[i]
      {
        assert ns[i] != ns[k - 1];
      }
      LinkedRemoved(ns, k);
      DistinctRemoved(ns, k);
      HoldsRemoved(ns, cs, k);
      assert ns[..k] + ns[k + 1..] == nodes && cs[..k] + cs[k + 1..] == Contents;
    }

    /** The interior branch of Remove: the node after `leader` is bypassed
        in both directions. */
    method UnlinkAfter(leader: Node, index: int)
      requires Valid() && 0 < index < length - 1 && leader == nodes[index - 1]
      modifies this, leader, nodes[index + 1]
      ensures Valid()
      ensures nodes == old(nodes[..index] + nodes[index + 1..])
      ensures Contents == old(Contents[..index] + Contents[index + 1..])
      ensures length == old(length) - 1 && head == old(head) && tail == old(tail)
    {
      ghost var ns, cs := nodes, Contents;
      assert leader.next == ns[index] && ns[index].next == ns[index + 1];
      var nodeToRemove := leader.next;
      var follower := nodeToRemove.next;
      leader.next := follower;
      if follower != null {
        follower.prev := leader;
      }
      length := length - 1;
      nodes, Contents := nodes[..index] + nodes[index + 1..], Contents[..index] + Contents[index + 1..];
      forall i, j | 0 <= i && j == i + 1 < |ns| && i != index && j != index
        ensures ns[i].next == ns[j] && ns[j].prev == ns[i]
      {
        assert ns[i] != ns[index - 1] && ns[j] != ns[index + 1];
      }
      LinkedRemoved(ns, index);
      DistinctRemoved(ns, index);
      HoldsRemoved(ns, cs, index);
    }

    /** The values from head to tail, collected by following `next` links. */
    method PrintList() returns (result: seq<int>)
      requires Valid()
      ensures result == Contents
      ensures |result| == length
      ensures forall k :: 0 <= k < |result| ==> result[k] == nodes[k].value
    {
      var currentNode := head;
      result := [];
      ghost var i := 0;
      while currentNode != null
        invariant 0 <= i <= |nodes|
        invariant currentNode == if i < |nodes| then nodes[i] else null
        invariant result == Contents[..i]
        decreases |nodes| - i
      {
        result := result + [currentNode.value];
        currentNode := currentNode.next;
        i := i + 1;
      }
    }

    /** Empties the list by resetting its fields, as the list page's clear
        button does; the old nodes are simply dropped. */
    method Clear()
      modifies this
      ensures Valid()
      ensures head == null && tail == null && length == 0
      ensures nodes == [] && Contents == []
    {
      head := null;
      tail := null;
      length := 0;
      nodes := [];
      Contents := [];
    }
  }
}

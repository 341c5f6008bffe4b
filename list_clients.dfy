/** What the list page does with the list: every handler calls one list
    operation and then redraws from printList, and "clear" resets the list.
    These methods run such call sequences on a fresh list and state the
    values the page ends up showing. */
module ListClients {
  import opened ListSpec
  import opened LinkedList

  /** A fresh list built by appending the values of `vs` in order. */
  method Build(vs: seq<int>) returns (list: DoublyLinkedList)
    ensures fresh(list) && list.Valid() && list.Contents == vs
    ensures forall k :: 0 <= k < |list.nodes| ==> fresh(list.nodes[k])
  {
    list := new DoublyLinkedList();
    var i := 0;
    while i < |vs|
      invariant 0 <= i <= |vs|
      invariant list.Valid() && list.Contents == vs[..i]
      invariant fresh(list) && forall k :: 0 <= k < |list.nodes| ==> fresh(list.nodes[k])
    {
      list.Append(vs[i]);
      assert vs[..i + 1] == vs[..i] + [vs[i]];
      i := i + 1;
    }
    assert vs[..i] == vs;
  }

  /** Pressing "add at end" once per value of `vs`, in order: the page shows `vs`. */
  method AddAllAtEnd(vs: seq<int>) returns (shown: seq<int>)
    ensures shown == vs
  {
    var list := Build(vs);
    shown := list.PrintList();
  }

  /** Inserting `v` at `index` and then looking up `index` finds `v` for
      every index from 0 to the old length. A negative index inserts
      nothing, and an index past the end appends at position |vs|, so the
      lookup at `index` itself finds no node. */
  method InsertThenFind(vs: seq<int>, v: int, index: int) returns (found: Node?)
    ensures 0 <= index <= |vs| ==> found != null && found.value == v
    ensures index < 0 || index > |vs| ==> found == null
  {
    var list := Build(vs);
    list.Insert(v, index);
    found := list.TraverseToIndex(index);
    if 0 <= index <= |vs| {
      InsertedElements(vs, v, index);
    }
  }

  /** Pressing "add at start" once per value of `vs`, in order: the page
      shows `vs` reversed, the last value pressed first. */
  method AddAllAtStart(vs: seq<int>) returns (shown: seq<int>)
    ensures shown == Reversed(vs)
    ensures forall k :: 0 <= k < |vs| ==> shown[|vs| - 1 - k] == vs[k]
  {
    var list := new DoublyLinkedList();
    shown := list.PrintList();
    var i := 0;
    while i < |vs|
      invariant 0 <= i <= |vs|
      invariant list.Valid() && list.Contents == Reversed(vs[..i])
      invariant fresh(list) && forall k :: 0 <= k < |list.nodes| ==> fresh(list.nodes[k])
      invariant shown == Reversed(vs[..i])
    {
      list.Prepend(vs[i]);
      shown := list.PrintList();
      assert vs[..i + 1] == vs[..i] + [vs[i]];
      ReversedSnoc(vs[..i], vs[i]);
      i := i + 1;
    }
    assert vs[..i] == vs;
    forall k | 0 <= k < |vs| ensures shown[|vs| - 1 - k] == vs[k] {
      ReversedAt(vs, k);
    }
  }

  /** A session on the page: add 1 and 2 at the end and 0 at the start,
      insert 5 at position 1, remove position 0, then remove position 10,
      which is out of range and changes nothing. */
  method Session() returns (added: seq<int>, inserted: seq<int>, removed: seq<int>, ignored: seq<int>)
    ensures added == [0, 1, 2]
    ensures inserted == [0, 5, 1, 2]
    ensures removed == [5, 1, 2]
    ensures ignored == [5, 1, 2]
  {
    var list := new DoublyLinkedList();
    list.Append(1);
    list.Append(2);
    list.Prepend(0);
    added := list.PrintList();
    inserted, removed, ignored := InsertThenRemove(list);
  }

  /** The second half of Session, on the list holding 0, 1, 2. */
  method InsertThenRemove(list: DoublyLinkedList) returns (inserted: seq<int>, removed: seq<int>, ignored: seq<int>)
    requires list.Valid() && list.Contents == [0, 1, 2]
    modifies list, list.nodes
    ensures inserted == [0, 5, 1, 2]
    ensures removed == [5, 1, 2]
    ensures ignored == [5, 1, 2]
  {
    list.Insert(5, 1);
    assert list.Contents == [0, 5, 1, 2] by {
      InsertedInterior([0, 1, 2], 5, 1);
    }
    inserted := list.PrintList();
    list.Remove(0);
    assert list.Contents == [5, 1, 2] by {
      RemovedHead([0, 5, 1, 2]);
    }
    removed := list.PrintList();
    list.Remove(10);
    ignored := list.PrintList();
  }

  /** Removing the only element empties the page but leaves `tail` on the
      removed node; a later "add at end" still starts a fresh one-element
      list, because Append tests `head` and not `tail`. */
  method EmptiedThenAdded(v: int, w: int) returns (emptied: seq<int>, tailKept: bool, shown: seq<int>)
    ensures emptied == [] && tailKept
    ensures shown == [w]
  {
    var list := new DoublyLinkedList();
    list.Append(v);
    list.Remove(0);
    emptied := list.PrintList();
    tailKept := list.tail != null;
    list.Append(w);
    shown := list.PrintList();
  }

  /** Pressing "clear" after any number of additions empties the page, and
      the list is usable again afterwards. */
  method ClearedThenAdded(vs: seq<int>, w: int) returns (cleared: seq<int>, shown: seq<int>)
    ensures cleared == []
    ensures shown == [w]
  {
    var list := Build(vs);
    list.Clear();
    cleared := list.PrintList();
    list.Append(w);
    shown := list.PrintList();
  }
}

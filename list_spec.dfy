/** Reference definitions, on plain sequences of values, of what the list's
    positional operations do to its contents, and the properties they have.
    The linked-list methods are proved against these functions. */
module ListSpec {

  /** The position where a value inserted at `index` ends up: indices past
      the end land at the end. Only meaningful for `index >= 0`. */
  function Landing(n: nat, index: int): (p: nat)
    requires index >= 0
    ensures p <= n
    ensures p == index || (p == n && index > n)
  {
    if index < n then index else n
  }

  /** Contents after inserting `v` at `index`: a negative index changes
      nothing, any other index puts `v` at Landing(|s|, index). */
  function Inserted(s: seq<int>, v: int, index: int): (r: seq<int>)
    ensures |r| == if index < 0 then |s| else |s| + 1
  {
    if index < 0 then s
    else
      var p := Landing(|s|, index);
      s[..p] + [v] + s[p..]
  }

  /** Contents after removing position `index`; out-of-range indices change nothing. */
  function Removed(s: seq<int>, index: int): (r: seq<int>)
    ensures |r| == if 0 <= index < |s| then |s| - 1 else |s|
  {
    if 0 <= index < |s| then s[..index] + s[index + 1..] else s
  }

  /** Inserting at index 0 is prepending. */
  lemma InsertedAtZero(s: seq<int>, v: int)
    ensures Inserted(s, v, 0) == [v] + s
  {
    assert s[..0] == [];
    assert s[0..] == s;
  }

  /** Inserting at or past the end is appending. */
  lemma InsertedPastEnd(s: seq<int>, v: int, index: int)
    requires index >= |s|
    ensures Inserted(s, v, index) == s + [v]
  {
    assert s[..|s|] == s;
    assert s[|s|..] == [];
  }

  /** Element by element: before the landing position nothing moves, at it
      stands `v`, after it every old element is shifted up by one. */
  lemma InsertedElements(s: seq<int>, v: int, index: int)
    requires index >= 0
    ensures var r, p := Inserted(s, v, index), Landing(|s|, index);
      && r[p] == v
      && (forall k :: 0 <= k < p ==> r[k] == s[k])
      && (forall k :: p < k < |r| ==> r[k] == s[k - 1])
  {
  }

  /** Splicing in the middle, as the source does between two existing nodes,
      agrees with Inserted. */
  lemma InsertedInterior(s: seq<int>, v: int, index: int)
    requires 0 < index < |s|
    ensures Inserted(s, v, index) == s[..index] + [v] + s[index..]
  {
  }

  /** Element by element: positions below `index` keep their value, the
      rest take the value of their successor. */
  lemma RemovedElements(s: seq<int>, index: int)
    requires 0 <= index < |s|
    ensures var r := Removed(s, index);
      && (forall k :: 0 <= k < index ==> r[k] == s[k])
      && (forall k :: index <= k < |r| ==> r[k] == s[k + 1])
  {
  }

  /** Removing the first element drops the head. */
  lemma RemovedHead(s: seq<int>)
    requires |s| > 0
    ensures Removed(s, 0) == s[1..]
  {
    assert s[..0] == [];
  }

  /** Removing the last element drops the tail. */
  lemma RemovedLast(s: seq<int>)
    requires |s| > 0
    ensures Removed(s, |s| - 1) == s[..|s| - 1]
  {
    assert s[|s|..] == [];
  }

  /** Removing at the position of an insertion undoes it. */
  lemma RemovedInserted(s: seq<int>, v: int, index: int)
    requires 0 <= index <= |s|
    ensures Removed(Inserted(s, v, index), index) == s
  {
    var r := Inserted(s, v, index);
    InsertedElements(s, v, index);
    assert Removed(r, index) == s[..index] + s[index..];
    assert s[..index] + s[index..] == s;
  }

  /** Inserting the element that was just removed, at the same position, restores the list. */
  lemma InsertedRemoved(s: seq<int>, index: int)
    requires 0 <= index < |s|
    ensures Inserted(Removed(s, index), s[index], index) == s
  {
    var r := Removed(s, index);
    RemovedElements(s, index);
    var t := Inserted(r, s[index], index);
    InsertedElements(r, s[index], index);
    assert forall k :: 0 <= k < |s| ==> t[k] == s[k];
  }

  /** The values of `vs` in reverse order. */
  function Reversed(vs: seq<int>): (r: seq<int>)
    ensures |r| == |vs|
  {
    if vs == [] then [] else Reversed(vs[1..]) + [vs[0]]
  }

  /** Reversed puts the k-th value at position |vs| - 1 - k. */
  lemma {:induction false} ReversedAt(vs: seq<int>, k: int)
    requires 0 <= k < |vs|
    ensures Reversed(vs)[|vs| - 1 - k] == vs[k]
  {
    if k > 0 {
      ReversedAt(vs[1..], k - 1);
    }
  }

  /** Reversing a sequence extended by `v` puts `v` in front: prepending
      one more value extends the reversal of the earlier ones. */
  lemma {:induction false} ReversedSnoc(vs: seq<int>, v: int)
    ensures Reversed(vs + [v]) == [v] + Reversed(vs)
  {
    if vs == [] {
      assert [v][1..] == [];
    } else {
      assert (vs + [v])[1..] == vs[1..] + [v];
      ReversedSnoc(vs[1..], v);
    }
  }
}

# Doubly-linked list, modelled and verified in Dafny

The repository's one piece of data-structure logic is the doubly-linked
list in `app/utils/doublyLinkedList.ts`. It has a `Node` class (a value plus
`next` and `prev` links) and a `DoublyLinkedList` class that keeps `head`,
`tail` and a cached `length`. The list has these operations:

- `append` and `prepend`;
- `traverseToIndex`, a walk from the head;
- `insert` and `remove` at an index;
- `printList`, which collects the values from head to tail.

The list page (`app/components/doublyLinkedListComponent.tsx`) drives it. Each
button handler calls one operation and then redraws from `printList`. Its
clear button resets the three fields directly.

The project has three modules:

- `ListSpec` (`list_spec.dfy`): reference definitions on plain sequences of
  values. They say what inserting at or removing from an index does to
  the contents. Their properties are proved here: element by element,
  the insert/remove round trips, and reversal.
- `LinkedList` (`doubly_linked_list.dfy`): the two classes, with the same
  fields updated in place. The list carries a ghost sequence `nodes` (the
  chain from `head`) and a ghost `Contents` (its values). `Valid()` ties
  `head`, `tail`, `length` and every `next`/`prev` link to `nodes`.
  `Insert` and `Remove` are proved against `ListSpec.Inserted` and
  `ListSpec.Removed`; the other methods state their new contents, or
  their result, directly in terms of `Contents` and `nodes`. A method's
  `modifies` clause names only the list object, the one or two neighbour
  nodes that the source rewires and, where the method links one in, the
  new node.
- `ListClients` (`list_clients.dfy`): call sequences of the kind the list
  page issues, on a fresh list, with the values the page then shows.

The model follows the code as written. Some behaviours differ from what
one might expect of a doubly-linked list:

- `traverseToIndex` always walks from the head.
- `remove` returns nothing.
- `insert` with a negative index changes nothing. Index 0 prepends, an
  index at or past the end appends, and a negative index reaches the
  splice branch, where the lookup of `index - 1` fails and the method
  returns early.
- An index past the end is not clamped for a later lookup. After
  `insert(v, i)` with `i > length`, `traverseToIndex(i)` finds nothing
  (`ListClients.InsertThenFind`).
- Removing the only element sets `head` to null and leaves `tail` on the
  removed node. The invariant therefore says `length == 0 <==> head == null`
  and constrains `tail` only while the list is non-empty. A stronger
  invariant, with `tail` null whenever the list is empty, does not hold for
  this code (`ListClients.EmptiedThenAdded`). The stale `tail` is harmless:
  `append` and `prepend` test `head`, not `tail`.
- The early returns at lines 69 and 89 are kept. On a valid list they are
  taken only when `insert` gets a negative index, and never by `remove`.
  The `ensures` of `Insert` and `Remove` rule out every other case, since
  each promises a changed length whenever the index is in range.

## Model

| member | source | states |
|---|---|---|
| LinkedList.Node.constructor | app/utils/doublyLinkedList.ts:6-10 | a new node holds the value and has no neighbours |
| LinkedList.DoublyLinkedList.constructor | app/utils/doublyLinkedList.ts:18-22 | a new list is valid and empty: null head and tail, length 0, no contents |
| LinkedList.DoublyLinkedList.Append | app/utils/doublyLinkedList.ts:24-35 | contents become old + [v] and length grows by 1; the new node is the tail with no successor; on an empty list it is also the head, otherwise the head is kept and the new tail's prev is the old tail; only the old tail is rewired; the invariant is kept |
| LinkedList.DoublyLinkedList.Prepend | app/utils/doublyLinkedList.ts:37-48 | contents become [v] + old and length grows by 1; the new node is the head with prev null; on an empty list it is also the tail, otherwise the tail is kept and the new head's next is the old head; only the old head is rewired; the invariant is kept |
| LinkedList.DoublyLinkedList.TraverseToIndex | app/utils/doublyLinkedList.ts:50-59 | returns null exactly when the index is outside [0, length); otherwise returns the node at that position counted from the head, holding the value at that position; changes nothing |
| LinkedList.DoublyLinkedList.Insert | app/utils/doublyLinkedList.ts:61-77 | contents become Inserted(old, v, index): unchanged (and the list object untouched) for a negative index, v at the index when it is within the list, v at the end past it; length grows by 1 exactly when index >= 0; the new node is fresh and sits at its landing position among the old nodes; only the nodes around that position are rewired; the invariant is kept |
| LinkedList.DoublyLinkedList.LinkAfter | app/utils/doublyLinkedList.ts:70-75 | splicing a new node after the node at index - 1 puts it at position index in both the node chain and the contents, grows length by 1, and keeps head, tail and the invariant |
| LinkedList.DoublyLinkedList.Remove | app/utils/doublyLinkedList.ts:79-96 | contents become Removed(old, index): the element at index is deleted and length drops by exactly 1 when 0 <= index < length; otherwise the list object is untouched; removing index 0 keeps the old tail; only the removed node's neighbours are rewired; the invariant is kept |
| LinkedList.DoublyLinkedList.UnlinkHead | app/utils/doublyLinkedList.ts:81-83 | the head branch with the decrement of line 95: the chain and contents lose their first element, tail is left as it was, and the invariant is kept |
| LinkedList.DoublyLinkedList.UnlinkTail | app/utils/doublyLinkedList.ts:84-86 | the tail branch with the decrement of line 95: the chain and contents lose their last element, head is kept, and the invariant is kept |
| LinkedList.DoublyLinkedList.UnlinkAfter | app/utils/doublyLinkedList.ts:88-93 | the interior branch with the decrement of line 95: the node at index is bypassed both ways, the chain and contents lose position index, and head, tail and the invariant are kept |
| LinkedList.DoublyLinkedList.PrintList | app/utils/doublyLinkedList.ts:98-106 | following next from the head yields exactly the contents, of size length, each element the value of the node at that position; changes nothing |
| LinkedList.DoublyLinkedList.Clear | app/components/doublyLinkedListComponent.tsx:51-56 | resetting head, tail and length empties the list and leaves it valid |
| LinkedList.LinkedInserted | app/utils/doublyLinkedList.ts:71-74 | with the links around the new node set as lines 71-74 set them, the spliced chain is linked both ways |
| LinkedList.LinkedRemoved | app/utils/doublyLinkedList.ts:90-93 | once the neighbours of the removed node point at each other, the remaining chain is linked both ways |
| ListSpec.Landing | app/utils/doublyLinkedList.ts:62-65 | the insert position is the index itself when it is in range, and the end of the list for any larger index |
| ListSpec.Inserted | app/utils/doublyLinkedList.ts:61-77 | insertion leaves the length unchanged for a negative index and grows it by one otherwise |
| ListSpec.Removed | app/utils/doublyLinkedList.ts:79-96 | removal shortens by one exactly for an index in range, and otherwise leaves the length as it was |
| ListSpec.InsertedAtZero | app/utils/doublyLinkedList.ts:62-63 | inserting at index 0 is prepending |
| ListSpec.InsertedPastEnd | app/utils/doublyLinkedList.ts:64-65 | inserting at or past the end is appending |
| ListSpec.InsertedInterior | app/utils/doublyLinkedList.ts:66-75 | splicing between positions index - 1 and index agrees with Inserted |
| ListSpec.InsertedElements | app/utils/doublyLinkedList.ts:61-77 | after inserting, v stands at the landing position, earlier elements stay put and later ones move up by one |
| ListSpec.RemovedElements | app/utils/doublyLinkedList.ts:79-96 | after removing, earlier elements stay put and later ones move down by one |
| ListSpec.RemovedHead | app/utils/doublyLinkedList.ts:81-83 | removing index 0 drops the first element |
| ListSpec.RemovedLast | app/utils/doublyLinkedList.ts:84-86 | removing the last index drops the last element |
| ListSpec.RemovedInserted | app/utils/doublyLinkedList.ts:61-96 | removing at the index of an in-range insertion restores the original contents |
| ListSpec.InsertedRemoved | app/utils/doublyLinkedList.ts:61-96 | re-inserting a removed element at its index restores the original contents |
| ListSpec.Reversed | app/utils/doublyLinkedList.ts:37-48 | reversal keeps the length |
| ListSpec.ReversedAt | app/utils/doublyLinkedList.ts:37-48 | reversal puts the k-th value at position length - 1 - k |
| ListSpec.ReversedSnoc | app/utils/doublyLinkedList.ts:37-48 | putting one more value in front extends the reversal of the earlier values |
| ListClients.Build | app/utils/doublyLinkedList.ts:24-35 | appending the values of a sequence one by one to a new list yields a valid list holding exactly that sequence |
| ListClients.AddAllAtEnd | app/components/doublyLinkedListComponent.tsx:13-20 | repeated "add at end" shows the values in the order they were added |
| ListClients.AddAllAtStart | app/components/doublyLinkedListComponent.tsx:22-29 | repeated "add at start" shows the values in reverse order: the k-th added is shown at position n - 1 - k |
| ListClients.InsertThenFind | app/utils/doublyLinkedList.ts:61-77 | after insert(v, i), looking up i finds a node holding v for every i from 0 to the old length, and finds nothing for a negative i or an i past the end |
| ListClients.Session | app/components/doublyLinkedListComponent.tsx:13-49 | add 1 and 2 at the end and 0 at the start shows [0, 1, 2]; insert 5 at 1 shows [0, 5, 1, 2]; remove 0 shows [5, 1, 2]; remove 10 leaves [5, 1, 2] |
| ListClients.InsertThenRemove | app/components/doublyLinkedListComponent.tsx:31-49 | on [0, 1, 2]: insert 5 at 1, remove 0, then remove 10 show [0, 5, 1, 2], [5, 1, 2] and [5, 1, 2] |
| ListClients.EmptiedThenAdded | app/utils/doublyLinkedList.ts:79-96 | removing the only element shows an empty list but keeps a non-null tail, and a later append still yields exactly [w] |
| ListClients.ClearedThenAdded | app/components/doublyLinkedListComponent.tsx:51-56 | clearing a list of any contents shows nothing, and a later append yields exactly [w] |

## Left out

- The page's rendering, its React state and its input handling are not modelled. That includes `parseInt`, the `isNaN` checks and clearing the input boxes. Values and indices enter the model as integers.
- JavaScript `number` is a floating-point type. Values, indices and `length` are modelled as mathematical integers, since the page passes only `parseInt` results.
- The list is over `number` only. A generic element type does not exist in the code and is not modelled.
- The OAuth routes, token refresh, profile fetch, dashboard and landing page are network and UI code, not list logic. They are not part of this model.
- UnlinkHead, UnlinkTail, UnlinkAfter: each one models a branch of `remove` together with the shared `length--` of line 95. The source decrements once after the branches; the effect on every path is the same.
- LinkAfter: models lines 70-75 of `insert` as a separate method. The guard at line 69 stays in Insert.

# SimpleCDLL in Dafny

A model of `SimpleCDLL<T>`, a circular doubly-linked list with one dummy
node, and of its fail-fast `ListIterator`.

The list keeps three things:
- a dummy node that is both head and tail sentinel;
- `size`, the number of real nodes;
- `numChanges`, a Java `int` that is bumped on every `add` and `remove`.

A cursor stands in the gap between two nodes, `prev` and `next`. It keeps:
- its index `pos`;
- the `update` node that `set` and `remove` act on;
- its own copy of `numChanges`.

Before doing anything, every cursor operation compares its copy with the
list's. When they differ it throws `ConcurrentModificationException`.

The project has five modules.

- `JavaInt` (`java_int.dfy`) models Java's `int` counter. `Count(n)` is the
  value of a counter that starts at 0 after `n` bumps of `++`, wrapping at
  2^31. The module proves three things:
  - the counter is `n` truncated to 32 bits;
  - two counts less than 2^32 apart differ exactly when the counts differ;
  - counts exactly 2^32 apart collide.
- `CursorSpec` (`cursor_spec.dfy`) is the abstract behaviour.
  - A list is its sequence of values plus an unbounded count of structural
    changes. A cursor is a gap index, a mark and the count it last saw. The
    mark is none, the element behind the gap, or the element ahead.
  - Every cursor operation is a function from these views to a result and
    the new views. Java's exceptions are the error outcomes
    `ConcurrentModification`, `NoSuchElement` and `IllegalState`.
  - Scripts of calls made through several cursors are run by `Run`. The
    properties are stated here: a round trip, staleness that is permanent,
    and a single cursor staying in sync.
- `NodeRing` (`node_ring.dfy`) is the node ring, stored as an arena.
  - Slot 0 is the dummy. Links are slot indices. A ghost `order` lists the
    real slots front to back.
  - `Linked` says that the `next` and `prev` links walk exactly that order,
    circularly through the dummy.
  - `InsertAfter` and `RemoveNode` are the two splices the list performs
    (`insertAfter` and `remove` of the `Node` class). They are proved to
    keep the ring linked and to insert or delete exactly one value.
- `SimpleCDLL` (`simple_cdll.dfy`) holds the classes `CDLL` and `Cursor`.
  Their fields are the Java fields. The methods update those fields in
  place. Each cursor method is proved to do to the views exactly what the
  matching `CursorSpec` function does, error outcomes included. It is also
  proved to leave the 32-bit fields consistent with the unbounded counts.
- `ListExperiments` (`list_experiments.dfy`) replays the scripted runs of
  the experiment programs, with the printing left out:
  - `toEnd` and `testDummy` run on the classes;
  - the adding, removing and overwriting loops run on the views;
  - `failFastExpt` runs on the classes with two cursors.

## Model

| member | source | states |
|---|---|---|
| JavaInt.Inc | src/SimpleCDLL.java:104 | `numChanges++` on a Java int stays in the int range, and wraps from the largest int to the smallest |
| JavaInt.Count | src/SimpleCDLL.java:30 | the list counter after any number of bumps is a Java int |
| JavaInt.CountIsTruncation | src/SimpleCDLL.java:207 | after `n` bumps from 0 the counter holds `n` truncated to 32 bits two's complement |
| JavaInt.CountExactWithin | src/SimpleCDLL.java:232 | the `!=` test of `failFast` on the ints is exact when the cursor is less than 2^32 changes behind |
| JavaInt.CountCollides | src/SimpleCDLL.java:232 | the test is blind at 2^32 changes: two counts 2^32 apart are equal ints |
| JavaInt.CountWraps | src/SimpleCDLL.java:104 | 2^31 - 1 bumps reach the largest int and one more reaches the smallest |
| CursorSpec.Open | src/SimpleCDLL.java:64-82 | a new cursor is at index 0, has no update node, and is in sync with the list |
| CursorSpec.HasNext | src/SimpleCDLL.java:108-113 | fails fast exactly when out of sync; otherwise true exactly when `next` would succeed |
| CursorSpec.HasPrevious | src/SimpleCDLL.java:115-120 | fails fast exactly when out of sync; otherwise true exactly when `previous` would succeed |
| CursorSpec.NextIndex | src/SimpleCDLL.java:142-147 | fails fast exactly when out of sync; otherwise an index between 0 and the length |
| CursorSpec.PreviousIndex | src/SimpleCDLL.java:149-158 | fails fast when out of sync; succeeds exactly when `hasPrevious` is true, with one less than `nextIndex`; otherwise NoSuchElement |
| CursorSpec.Next | src/SimpleCDLL.java:122-140 | leaves the list alone; fails fast exactly when out of sync; on success returns the element at the old index, which becomes the update target behind the gap; a failure leaves the cursor unchanged |
| CursorSpec.Previous | src/SimpleCDLL.java:160-179 | mirror of `Next`: on success returns the element just before the gap, which becomes the update target ahead of the gap |
| CursorSpec.Inserted | src/SimpleCDLL.java:92 | inserting at index `i` keeps the elements before `i`, puts `v` at `i`, shifts the rest up by one and counts one change |
| CursorSpec.Deleted | src/SimpleCDLL.java:200 | deleting index `i` keeps the elements before `i`, shifts the rest down by one and counts one change |
| CursorSpec.Add | src/SimpleCDLL.java:88-106 | succeeds exactly when in sync; then one element longer, one change more, the cursor still in sync and its update node cleared; a failure changes nothing |
| CursorSpec.Remove | src/SimpleCDLL.java:181-209 | ConcurrentModification exactly when out of sync; IllegalState without an update node; otherwise one element shorter, one change more, the cursor in sync at the removed element's index with nothing to update |
| CursorSpec.Set | src/SimpleCDLL.java:211-222 | the same errors as `Remove`; otherwise only the target element becomes `v`, and the length, the change count and the cursor stay |
| CursorSpec.Apply | src/SimpleCDLL.java:88-222 | any call: the change count moves by one exactly on a successful `add` or `remove`; a failing call changes nothing; a cursor in sync stays in sync |
| CursorSpec.OtherCursorsStayConsistent | src/SimpleCDLL.java:104-105 | a call through one cursor never leaves another cursor pointing outside the list while it still counts as in sync |
| CursorSpec.Run | src/SimpleCDLL.java:53-82 | any script through several cursors keeps all of them consistent, and the change count never goes down |
| CursorSpec.EmptyListHasNoElements | src/SimpleCDLL.java:39-43 | on a new list a new cursor has nothing either side: `hasNext` and `hasPrevious` are false, `next`, `previous` and `previousIndex` raise NoSuchElement, `nextIndex` is 0 |
| CursorSpec.ForeignChangeDetected | src/SimpleCDLL.java:231-235 | after a successful `add` or `remove` through one cursor, that cursor is in sync and every other cursor fails fast |
| CursorSpec.StaleIsPermanent | src/SimpleCDLL.java:231-235 | a cursor out of sync is never changed by any later script and stays out of sync |
| CursorSpec.SoleCursorStaysInSync | src/SimpleCDLL.java:207-208 | through a single cursor any script keeps it in sync, with `0 <= pos <= size` |
| CursorSpec.NextThenPrevious | src/SimpleCDLL.java:160-179 | after a successful `next`, `previous` returns the same element and restores the index |
| CursorSpec.PreviousThenNext | src/SimpleCDLL.java:122-140 | after a successful `previous`, `next` returns the same element and restores the index |
| CursorSpec.AddThenRemove | src/SimpleCDLL.java:88-106 | `add(v)` puts `v` just behind the gap: `previous` returns `v`, and `remove` then restores the elements and the index |
| CursorSpec.AddClearsUpdate | src/SimpleCDLL.java:95 | right after `add`, both `remove` and `set` raise IllegalState |
| CursorSpec.SetAfterNext | src/SimpleCDLL.java:211-222 | `set` after `next` overwrites exactly the element passed, `previous` reads it back, and no other cursor is put in or out of sync |
| NodeRing.Values | src/SimpleCDLL.java:22-25 | the values read along the ring are the real nodes' values, one per node, in ring order |
| NodeRing.AtDistinct | src/SimpleCDLL.java:70-71 | two different ring positions hold different nodes, so `prev` and `next` are never the same real node |
| NodeRing.Forward | src/SimpleCDLL.java:135 | following `next` from the node at index `r` reaches the node after it in the ring, and that node holds the element at `r` |
| NodeRing.Backward | src/SimpleCDLL.java:173 | following `prev` from the node at index `r - 1` reaches the node before it, and that node holds the element at `r - 1` |
| NodeRing.EmptyLinked | src/SimpleCDLL.java:40 | a dummy alone, linked to itself, is a well-formed ring with no values |
| NodeRing.InsertAfter | src/SimpleCDLL.java:92 | the new node gets a fresh slot with `v`, linked between the node and its old successor; no other node changes |
| NodeRing.RemoveNode | src/SimpleCDLL.java:200 | the node's neighbours are linked to each other; no other node changes |
| NodeRing.InsertLinked | src/SimpleCDLL.java:92 | `insertAfter` on the node at ring position `p` keeps the ring well formed, with `v` inserted at index `p` of the values |
| NodeRing.RemoveLinked | src/SimpleCDLL.java:200 | `remove` on the real node at index `i` keeps the ring well formed, with the value at `i` deleted |
| NodeRing.SetLinked | src/SimpleCDLL.java:221 | overwriting a real node's value keeps the ring and changes exactly that one value |
| SimpleCDLL.CDLL.constructor | src/SimpleCDLL.java:39-43 | a new list is a self-linked dummy with `size == 0` and `numChanges == 0`, and its view is the empty list |
| SimpleCDLL.CDLL.ListIterator | src/SimpleCDLL.java:53-82 | a fresh cursor on this list, at index 0, between the dummy and `dummy.next`, with no update node and the list's `numChanges` |
| SimpleCDLL.Cursor.constructor | src/SimpleCDLL.java:64-82 | the field initialisers of the iterator give a valid cursor in sync with the list |
| SimpleCDLL.CDLL.Grow | src/SimpleCDLL.java:92-104 | the list part of `add`: the value enters at the gap's index, `size` goes up by one, `numChanges` is bumped as a Java int, and the new node sits between the old boundaries |
| SimpleCDLL.CDLL.Shrink | src/SimpleCDLL.java:199-207 | the list part of `remove`: the value at the index leaves, `size` goes down by one, `numChanges` is bumped, and the node's neighbours become adjacent |
| SimpleCDLL.Cursor.Resync | src/SimpleCDLL.java:204-208 | after its own structural change a cursor copies the list's `numChanges`, clears `update` and is in sync |
| SimpleCDLL.Cursor.FailFast | src/SimpleCDLL.java:231-235 | the 32-bit comparison passes exactly when no structural change happened since the cursor last synchronised |
| SimpleCDLL.Cursor.HasNext | src/SimpleCDLL.java:108-113 | implements `CursorSpec.HasNext`: `pos < size` when in sync |
| SimpleCDLL.Cursor.HasPrevious | src/SimpleCDLL.java:115-120 | implements `CursorSpec.HasPrevious`: `pos > 0` when in sync |
| SimpleCDLL.Cursor.NextIndex | src/SimpleCDLL.java:142-147 | implements `CursorSpec.NextIndex`: `pos` when in sync |
| SimpleCDLL.Cursor.PreviousIndex | src/SimpleCDLL.java:149-158 | implements `CursorSpec.PreviousIndex`: `pos - 1`, or NoSuchElement at index 0 |
| SimpleCDLL.Cursor.Next | src/SimpleCDLL.java:122-140 | implements `CursorSpec.Next` on the node fields: the old `next` node becomes `prev` and `update`, and its value is returned; a failure changes nothing |
| SimpleCDLL.Cursor.Previous | src/SimpleCDLL.java:160-179 | implements `CursorSpec.Previous`: the old `prev` node becomes `next` and `update`, and its value is returned; a failure changes nothing |
| SimpleCDLL.Cursor.Add | src/SimpleCDLL.java:88-106 | implements `CursorSpec.Add`: on success `size` goes up by one, `numChanges` is bumped, and the cursor copies it; a failure changes neither list nor cursor |
| SimpleCDLL.Cursor.Remove | src/SimpleCDLL.java:181-209 | implements `CursorSpec.Remove`: on success `size` goes down by one, `numChanges` is bumped and copied; a failure changes neither list nor cursor |
| SimpleCDLL.Cursor.RemoveMarked | src/SimpleCDLL.java:190-208 | moving the boundary that is the update node to its neighbour (and `pos` back by one when it was `prev`) and then unlinking it deletes exactly the target element |
| SimpleCDLL.Cursor.Set | src/SimpleCDLL.java:211-222 | implements `CursorSpec.Set`: the ring order, `size` and `numChanges` stay, so no cursor goes stale |
| SimpleCDLL.GrowRing | src/SimpleCDLL.java:92 | after `insertAfter` at ring position `p` the ring is well formed, the value is inserted at index `p`, and the new node is at ring position `p + 1` next to the old successor |
| SimpleCDLL.ShrinkRing | src/SimpleCDLL.java:200 | after `remove` of the node at index `i` the ring is well formed, the value at `i` is deleted, and the node's neighbours are the boundaries at ring position `i` |
| SimpleCDLL.RemovesTarget | src/SimpleCDLL.java:191-197 | a successful `remove` deletes the target element and leaves the gap at its index |
| SimpleCDLL.MarkedNode | src/SimpleCDLL.java:191-197 | the update node is `prev` exactly when it was reached by `next` and `next` exactly when reached by `previous`, and its own links are the boundaries that remain |
| SimpleCDLL.OtherCursorGoesStale | src/SimpleCDLL.java:231-235 | a structural change made elsewhere leaves an untouched cursor valid but out of sync |
| ListExperiments.ToEnd | src/SimpleListExpt.java:29-33 | `next` until `hasNext` is false leaves the list unchanged and the cursor at the end, just before the dummy |
| ListExperiments.TestDummy | src/SimpleListExpt.java:302-319 | a new cursor has no previous element, and at the end no next one, so the dummy is never reached |
| ListExperiments.AddAll | src/SimpleListExpt.java:91-100 | adding a batch through one cursor puts the values in order at the cursor's index |
| ListExperiments.AddsInBatch | src/SimpleListExpt.java:95-97 | each `add` of the batch succeeds and lands behind the values added before it |
| ListExperiments.SurvivorsAreOddIndexed | src/SimpleListExpt.java:193 | removing every other element, starting with the first, leaves exactly the elements at odd indices |
| ListExperiments.AlternateStep | src/SimpleListExpt.java:110-117 | one round of the forward loop reads the next element and removes it exactly when the counter is even |
| ListExperiments.RemoveAlternate | src/SimpleListExpt.java:106-119 | the forward removal loop with the alternating counter predicate leaves the survivors, with the cursor in sync at the end |
| ListExperiments.RemoveExpt | src/SimpleListExpt.java:189-195 | "A" to "G" with every other element removed gives B, D and F |
| ListExperiments.SetForward | src/SimpleListExpt.java:270-280 | `next` then `set` along the list overwrites every element without a structural change |
| ListExperiments.SetBackward | src/SimpleListExpt.java:286-297 | `previous` then `set` from the end overwrites every element without a structural change |
| ListExperiments.SetExpt | src/SimpleCDLLExpt.java:29-33 | on the five words, the forward pass gives five "0" and the backward pass five "1" |
| ListExperiments.FailFastExpt | src/SimpleListExpt.java:251-264 | with two cursors on a list, `add` through the first succeeds and inserts at the front, and `add` through the second then fails fast |

## Left out

- The `Node` class is not part of this model. Its `insertAfter` and `remove` are modelled from their uses: they splice a node in after the given one, or unlink a node. Nodes are arena slots addressed by index, not objects, so aliasing of node references is captured by slot equality.
- `new Node<T>(null, null, null)` for the dummy: whether the `Node` constructor links a node to itself is not visible. The model takes the empty list to be a dummy linked to itself, which is what the iterator relies on when it reads `dummy.next` and inserts after the dummy.
- `size` and `pos` are unbounded naturals. Java `int` overflow there would need more than 2^31 nodes.
- `numChanges` is modelled with its 32-bit wrap-around. Exactly 2^32 structural changes behind, the Java test cannot see that a cursor is stale (`JavaInt.CountCollides`). The cursor methods therefore require that a cursor is fewer than 2^32 changes behind its list. Each line below names a member that carries this requirement.
- SimpleCDLL.Cursor.FailFast: requires the cursor to be fewer than 2^32 changes behind (`Tracked`), because past that the Java comparison is not exact.
- SimpleCDLL.Cursor.HasNext: requires `Tracked`, for the same reason.
- SimpleCDLL.Cursor.HasPrevious: requires `Tracked`, for the same reason.
- SimpleCDLL.Cursor.NextIndex: requires `Tracked`, for the same reason.
- SimpleCDLL.Cursor.PreviousIndex: requires `Tracked`, for the same reason.
- SimpleCDLL.Cursor.Next: requires `Tracked`. Past the window a stale cursor would walk nodes that may have been unlinked.
- SimpleCDLL.Cursor.Previous: requires `Tracked`, for the same reason.
- SimpleCDLL.Cursor.Add: requires `Tracked`. Past the window it would splice after a possibly detached node.
- SimpleCDLL.Cursor.Remove: requires `Tracked`, for the same reason.
- SimpleCDLL.Cursor.Set: requires `Tracked`, for the same reason.
- `iterator()` (src/SimpleCDLL.java:49-51) only returns `listIterator()` and is not modelled separately.
- Values are never null in the model. A `null` stored by `add` or `set` is not distinguished from any other value.
- Threads are not modelled. The change counter is advisory and not a lock.
- The experiment programs: printing, `PrintWriter`, the random experiments and the `main` driver's output are left out.
  - The adding, removing and overwriting loops are replayed on the abstract views, which the classes are proved to implement step by step.
  - `toEnd`, `testDummy` and `failFastExpt` run on the classes.
  - `removeBackwardExpt` and the backward alternating removal are not replayed.
- ListExperiments.RemoveAlternate: the `Counter` is an unbounded integer. The Java `int` would only wrap after 2^31 tests.
- ListExperiments.SetBackward: starts from a cursor in sync at the end of the list, which is where `ListExperiments.ToEnd` leaves it. The `toEnd` walk itself is not repeated on the views.
- The `SimpleList` interface declares behaviour only and has nothing to model.

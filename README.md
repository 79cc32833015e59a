# CppJavaContainers in Dafny

A model of a small generic C++ sequence library: one abstract interface,
`List<T>`, and two implementations that store the elements differently.

- `LinkedList<T>` is a singly linked chain of `ListElt` nodes. It has a head pointer, a tail pointer, a cursor and an element counter.
- `Vector<T>` is a heap array that grows in clusters of ten slots. It has a capacity, a live count and a cursor index.

Both implementations offer the same operations:

- `append` and `prepend`;
- indexed read and write, `operator[]`;
- a single shared cursor, driven by `first`, `hasNext` and `next`;
- `last` and `remove`.

Two generic algorithms use nothing but the cursor: `pos`, a linear search, and the stream operator `<<`, which writes `{a, b, c}`. Every failure is one of three exceptions: empty container, index out of bounds, or element not found.

The model is imperative, as the C++ is.

- **Classes.** The classes keep the source's fields and update them in place.
  - `LinkedList` is built from real `Node` objects linked by pointers. A ghost `nodes` sequence records the chain reachable from the head, and a ghost `values` sequence records what the chain holds.
  - `Vector` keeps its `array`. A ghost `elems` records the live slots.
- **Loops.** The source's loops stay loops, each proved against a specification function: the walks in `operator[]`, the search in `remove`, the copy in `extendTab`, the shifts in `offset` and `backOffset`, and the loops of `pos` and `<<`.
- **Virtual dispatch.** Calls through `List<T>` become the datatype `AnyList`, whose methods dispatch to one implementation or the other. `pos` and `<<` are written once against it.
- **Exceptions.** Exceptions are the outcomes of a `Result` datatype.
- **Cursor.** The `const` cursor methods change the `mutable` cursor, so they are methods that modify only the cursor fields.
  - The linked list's cursor is paired with a ghost index, `cursorAt`, which says which value the next call to `next()` returns while the cursor is on a node. A null cursor, whether it was never set or has run off the end, is an exhausted traversal.
  - `hasNext()` changes nothing, so it is a function.

The linked list does not keep its own design invariant, and the model says so instead of hiding it.

- `LinkedList.Valid` is the design invariant: the counter equals the chain's length and the tail pointer is the final node.
- `LinkedList.Shape` is the weaker invariant that holds in every reachable state.
- `prepend` on an empty list never sets the tail.
- `remove` neither decrements the counter nor repairs the tail pointer.

Where the source's own comments and its code disagree, the model follows the code:

- **`pos` on a missing element.** The comment at list.hpp:57 says `pos` returns -1. The code throws ElementNotFound at list.hpp:67, and the `return -1` at list.hpp:68 is never reached (`Position`, `Pos`).
- **`first()` on an empty linked list.** The comment at linkedlist.hpp:160 says `first()` returns nullptr. The code throws EmptyContainer at linkedlist.hpp:167 (`LinkedList.First`).
- **`next()` on a cursor that was never set.** The comment at linkedlist.hpp:144 says `next()` then returns the first element. The code tests only for a null cursor (linkedlist.hpp:147-156), and a cursor that was never set is null too. So after `append(e)` on a fresh list, `next()` throws IndexOutOfBounds, whereas a fresh Vector, whose cursor starts before slot 0, returns `e` (`AppendThenNext`).

Two further behaviours are worth stating, since a reader might expect otherwise:

- **Rendering an empty container.** `operator<<` calls `first()` before it writes `{` (list.hpp:75-76), so an empty container fails with EmptyContainer and nothing is written, rather than giving `{}` (`Rendered`, `Render`).
- **Exhausted `next()` on a Vector.** The code guards it and fails with IndexOutOfBounds (vector.hpp:141-150), as the message at list.hpp:117 describes (`Vector.Next`).

The comment on `extendTab` (vector.hpp:27-28) asks for `n` more slots, rounded so that the size stays a multiple of 10. The code adds `(n / 10 + 1) * 10` slots (vector.hpp:30-35), one cluster more than that rounding when `n` is a multiple of 10. The two agree on the only argument the code passes, `n == 1` (`Extension`).

Files: `list.dfy` (interface, specification functions, `pos`, `<<`), `linkedlist.dfy`, `vector.dfy`, `scenarios.dfy` (the demonstration driver's runs and edge cases on fresh containers).

## Model

| member | source | states |
|---|---|---|
| IndexOf | list.hpp:59-66 | the result is the first index holding `e` (every earlier element differs), or the length when `e` is absent |
| Position | list.hpp:59-69 | the outcome of `pos(t)`: Ok exactly when `t` occurs, at its first index; EmptyContainer exactly when the container is empty; ElementNotFound carrying `t` exactly when it is non-empty and lacks `t`; never IndexOutOfBounds |
| Removed | linkedlist.hpp:178-200 | removal leaves the sequence unchanged when `e` is absent and shortens it by one otherwise |
| RemovedMultiset | linkedlist.hpp:183-196 | removal takes out exactly one occurrence of `e` and nothing else (multiset difference) |
| RemovedKeepsOrder | linkedlist.hpp:183-196 | the removed index is the first occurrence of `e`; elements before it keep their index and elements after it move down by one |
| Rendered | list.hpp:74-85 | an empty container fails with EmptyContainer; otherwise the output starts with `{` and ends with `}` |
| Join | list.hpp:77-82 | the joined text starts with the first element shown, and each of the `|s| - 1` separators adds two characters |
| JoinCons | list.hpp:77-82 | the joined elements read left to right: the first element, `, `, then the rest |
| RenderedSingleton | list.hpp:74-85 | a one-element container is written as `{e}` |
| RenderedThree | list.hpp:74-85 | a three-element container is written as `{a, b, c}` |
| First | list.hpp:52 | the virtual `first()`: fails with EmptyContainer on an empty container, otherwise returns element 0 and makes it the next element; the elements are unchanged |
| AnyList.HasNext | list.hpp:50 | on either implementation, `hasNext()` holds exactly when the traversal has an element left |
| Next | list.hpp:51 | the virtual `next()`, callable in every state the operations reach except a linked-list cursor left dangling by `remove`: returns the pending element and moves past it; once exhausted (for a linked list, whenever the cursor is null) it fails with EmptyContainer if the counter is 0 and with IndexOutOfBounds otherwise; the elements are unchanged |
| Pos | list.hpp:59-69 | the loop's outcome equals `Position` of the traversal's elements; the elements are unchanged and the cursor rests just past the element found |
| Render | list.hpp:74-85 | the loop's output equals `Rendered` of the traversal's elements; the elements are unchanged |
| Node.constructor | linkedlist.hpp:21-24 | a node holds the given value and successor |
| LinkedDistinct | linkedlist.hpp:17-25 | a chain of nodes ending in a null link holds no node twice |
| LinkedList.constructor | linkedlist.hpp:44-49 | a fresh list has null head, tail and cursor and a size of 0, and satisfies the design invariant |
| LinkedList.Append | linkedlist.hpp:67-84 | the chain becomes `values + [e]` with a fresh tail node; the size grows by one; the cursor stays on the node it was on, or null; the design invariant is preserved |
| LinkedList.Prepend | linkedlist.hpp:89-93 | the chain becomes `[e] + values` with a fresh head; the size grows by one; the tail pointer is untouched; a cursor on a node stays on it, now one index further; the design invariant is preserved on a non-empty list and lost on an empty one |
| LinkedList.Read | linkedlist.hpp:98-112 | EmptyContainer when the size is 0, whatever `i` is; otherwise IndexOutOfBounds when `i` is outside [0, size); otherwise the `i`-th value |
| LinkedList.Write | linkedlist.hpp:117-131 | the same failures as `Read`; it succeeds exactly when `i` is in range, and then only value `i` changes; on failure nothing changes |
| LinkedList.HasNext | linkedlist.hpp:136-141 | with a cursor that does not dangle, `hasNext()` holds exactly while values remain to be returned |
| LinkedList.Next | linkedlist.hpp:146-157 | callable with a null cursor, whatever the chain holds, and with a cursor on any node of the chain; with a non-null cursor, returns the value under it and advances; with a null cursor, fails with EmptyContainer if the size is 0 and IndexOutOfBounds otherwise, and the cursor stays null |
| LinkedList.First | linkedlist.hpp:162-168 | the cursor is put on the head; the result is the head's value, or EmptyContainer on an empty chain |
| LinkedList.Last | linkedlist.hpp:170-176 | EmptyContainer when the tail pointer is null; otherwise the final value; under the design invariant, EmptyContainer exactly on an empty list |
| LinkedList.Remove | linkedlist.hpp:178-200 | the outcome is `Position(values, e)` without its value; the values become `Removed(values, e)` and the chain's nodes lose exactly the first node holding `e`; the size and the tail pointer are unchanged; the cursor is left on the old head, so it dangles exactly when the head was unlinked |
| LinkedList.Locate | linkedlist.hpp:180-197 | the search loop ends on null exactly when no node holds `e`; otherwise on the first node holding `e`, with the node before it (null at the head) kept as well |
| LinkedList.Unlink | linkedlist.hpp:185-192 | bypassing node `k` removes exactly index `k` from both the nodes and the values and keeps the chain well formed |
| Extension | vector.hpp:30-35 | `extendTab(n)` adds more than `n` slots, at most `n + 10`, and a multiple of 10 |
| ShiftReads | vector.hpp:59-61 | the slots the shift loop reads as written: `filled - d + 1` of them, from `filled - 1` down to `d - 1` |
| ShiftReadsBeforeStart | vector.hpp:59-61 | as written, `offset(0, 1)` reads slot -1 |
| ShiftReadsFromOne | vector.hpp:59-61 | with the loop stopping at 1, every slot read is a live slot |
| Vector.constructor | vector.hpp:79-84 | a fresh vector has one cluster of 10 slots, nothing live and the cursor at -1 |
| Vector.ExtendTab | vector.hpp:29-46 | a fresh array with exactly `Extension(n)` more slots holds the same live elements |
| Vector.Offset | vector.hpp:52-62 | grows the array when `1 + filled >= capacity`; afterwards fewer than `capacity` slots are live, and each live element sits one slot to the right |
| Vector.BackOffset | vector.hpp:67-71 | the elements before slot `d` stay; those after `d` move one slot left; the last live slot and beyond keep their old values |
| Vector.Append | vector.hpp:94-102 | the contents become `elems + [e]`; the capacity grows by exactly 10 exactly when the vector was full |
| Vector.Prepend | vector.hpp:104-115 | the contents become `[e] + elems`; the capacity grows by exactly 10 when `filled + 1 >= capacity` (the check in `offset`, which covers the full case checked first) |
| Vector.Read | vector.hpp:117-125 | EmptyContainer when nothing is live; otherwise IndexOutOfBounds when `i` is outside [0, filled); otherwise element `i` |
| Vector.Write | vector.hpp:127-135 | the same failures as `Read`; it succeeds exactly when `i` is in range, and then only element `i` changes; the slots beyond the live ones keep their values |
| Vector.HasNext | vector.hpp:137-139 | under the invariant, `hasNext()` holds exactly while an element follows the cursor |
| Vector.Next | vector.hpp:141-151 | while an element follows the cursor, advances to it and returns it; otherwise fails with EmptyContainer when nothing is live and IndexOutOfBounds otherwise, and the cursor stays |
| Vector.First | vector.hpp:153-159 | the cursor goes to -1 and the result is element 0; EmptyContainer with the cursor untouched when nothing is live |
| Vector.Last | vector.hpp:161-167 | the last live element, or EmptyContainer when nothing is live |
| Vector.Remove | vector.hpp:169-173 | the outcome is `Position(elems, e)` without its value; the contents become `Removed(elems, e)`; the capacity is unchanged |
| BuildVectorDemo | main.cpp:52-58 | nine rounds of `append(i); prepend(-i)` give -9..-1, 1..9: 18 live elements in 20 slots |
| VectorDemo | main.cpp:52-87 | the driver's run on a Vector: `pos(2)` is 10, `pos(12)` fails with ElementNotFound(12), `[128]` fails with IndexOutOfBounds, `last()` is 9, `remove(5)` succeeds and `remove(13)` fails with ElementNotFound(13) |
| BuildLinkedListDemo | main.cpp:12-18 | the same nine rounds on a LinkedList give the same contents and a counter of 18, and keep the design invariant |
| LinkedListDemo | main.cpp:13-48 | the same outcomes on a LinkedList, whose counter still says 18 after the removal |
| PrependOnEmpty | linkedlist.hpp:89-93 | after `prepend` on an empty list, `last()` fails with EmptyContainer although the size is 1 |
| ListAppendThenLast | linkedlist.hpp:67-84 | in every state `append` can be called in, `append(e)` followed by `last()` returns `e` |
| VectorAppendThenLast | vector.hpp:94-102 | `append(e)` followed by `last()` returns `e` |
| RemoveKeepsCount | linkedlist.hpp:178-200 | after appending `e` and removing it, the size still says 1 and `first()` fails with EmptyContainer |
| EmptyFailures | list.hpp:59-85 | on empty containers, indexing, `next()`, `pos` and `<<` all fail with EmptyContainer |
| BuildThree | linkedlist.hpp:67-84 | three appends on a fresh list give `[a, b, c]` under the design invariant |
| WalkThree | linkedlist.hpp:136-168 | after `first()` on a three-element list, `next()` returns the values in order, `hasNext()` is then false, and a further `next()` fails with IndexOutOfBounds |
| AppendThenNext | linkedlist.hpp:143-157 | on a fresh list, `append(e); next()` fails with IndexOutOfBounds, since the cursor was never set; on a fresh vector the same calls return `e` |
| ExhaustedThenAppend | linkedlist.hpp:67-84 | once a traversal has run off the end, an `append` does not revive it: `next()` still fails with IndexOutOfBounds |
| RemoveMiddle | linkedlist.hpp:178-200 | on [1, 2, 3], after `remove(2)` the tail is still 3, element 1 is 3, and `append(4)` makes `last()` 4, with the counter at 4 |

## Left out

- Destructors, `delete` and `delete[]` (linkedlist.hpp:54-62, vector.hpp:45, vector.hpp:89-92) are memory release, and Dafny is garbage collected. A node that `remove` deletes simply leaves the ghost chain. A tail pointer or cursor still aimed at it is a pointer outside `nodes`.
- Undefined behaviour becomes preconditions instead of being modelled:
  - `LinkedList.Append` requires the tail to be in the chain when the list is not empty, so the null dereference after prepend-on-empty and the write through a deleted tail node are excluded;
  - `LinkedList.Read` and `LinkedList.Write` require an in-range index to lie within the chain, which a stale counter after `remove` does not guarantee;
  - `LinkedList.Next` requires the cursor not to dangle: it may be null, or any node of the chain, and only a cursor left on a head that `remove` unlinked is excluded;
  - `LinkedList.Last` requires a non-null tail to be in the chain.
- The `what()` message strings of the three exceptions (list.hpp:104-106, 116-118, 131-135) are left out. `ElementNotFoundException::what` returns a pointer into a destroyed temporary.
- `LinkedList.Write` and `Vector.Write` model `operator[](i)` followed at once by an assignment through the returned `T&`. A reference kept and written later, after the container has changed, is not modelled.
- Writing `T` to a stream (list.hpp:79) is the function parameter `show`. The stream itself is the returned string.
- `int` is unbounded. Neither the 32-bit counters nor the array size can overflow in the model.
- Element equality `==` of `T` is Dafny's equality. New array slots hold `T`'s default value, the counterpart of default construction.
- Only `offset(0, 1)` and `backOffset(d, 1)` are modelled, the only arguments the code ever passes.
- `Vector.Offset`: its loop stops at `i == 1`. It leaves slot 0 unstated; the source copies `mTab[-1]` there, and `prepend` then overwrites it.
- `Vector.Remove`: the cursor's final position is not stated beyond the invariant's range [-1, filled].
- The demonstration driver's printing and exception handlers (main.cpp) are left out. Its calls and their outcomes are the scenarios.

## Findings

| source | as written | input that shows it | evidently intended | confidence | as-written member | corrected member |
|---|---|---|---|---|---|---|
| vector.hpp:59-61 | the shift loop runs `i` from `mFilled` down to `d` inclusive and copies `mTab[i-1]` | every `prepend`: `offset(0, 1)` ends with `i == 0`, which reads `mTab[-1]` | stop before `i == d`, so that only live slots are read (the write to slot 0 is overwritten by `prepend` anyway) | high; not executed | ShiftReadsBeforeStart | Vector.Offset |

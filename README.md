# RecursiveList: a verified model of a generic doubly-linked list

The repository is one generic doubly-linked list, `RecursiveList<T>`, and its forward iterator,
`RecursiveListIterator<T>`. The list keeps a `head` cell, a `tail` cell and a `size` count.
It inserts and removes at either end and at an index. It reads by position, searches by
equality and iterates from head to tail. Each mutator relinks the cells' `next` and `prev`
pointers in place. The empty list and the one-element list, where `head` and `tail` coincide or
are both null, are handled as cases of their own.

This project models both classes in Dafny, imperatively.

- `nodes.dfy`: `Node`, the cell (`DLNode` in the source, whose class is not part of this
  model). Its constructor takes `(data, next, prev)`, as at RecursiveList.java lines 24, 37
  and 56. The predicate `Chain` says that following `next` from a cell visits a given
  sequence of cells and then reaches null.
- `recursive_list.dfy`: `RecursiveList`, with the fields `head`, `tail` and `size` and with
  ghost `nodes` (the cells from head to tail) and `contents` (their elements). `Valid()` is the
  linking discipline: `size == |nodes|`; `head` is null iff `tail` is null iff the list is
  empty; `head` is the first cell and `tail` the last; `next` runs forward and `prev` runs
  backward between neighbours; the ends point to null; the cells are distinct; `contents`
  is their data. Every operation keeps `Valid()` and is specified by what it does to
  `contents` (and to `nodes`).
- `list_iterator.dfy`: `RecursiveListIterator`, a cursor whose only field is the cell it yields
  next. It never writes a cell, so iterating cannot change the list.
- `sequences.dfy`: the abstract operations on sequences that the list is specified by. These are
  first-occurrence search, insertion at an index, removal at an index, removal of the first
  occurrence, and the source's removal by position. They come with their lemmas.
- `outcomes.dfy`: each Java exception becomes an `Error` value, returned in a `Result` or a
  `Status`. A Java argument that may be null becomes a `Nullable<T>`, so the null checks
  are modelled as failures.
- `scenarios.dfy`: clients that use only the operations' contracts. They show that traversal
  yields the contents, and they cover these usage scenarios: insertion order,
  the insert/remove round trip, emptying a one-element list, rejected null elements and
  removal by value.

Every failing call leaves the list unchanged, both its fields and its cells. A bad index
takes priority over a null element in `insertAt`, as in the code.

`get(i)` checks `i < 0 || i > size`, so it accepts `i == size`; the recursive walk then reads
past the tail and dereferences null. `Get` models that case as the distinct failure
`NullDereference`, with no result.

The method `removeAt(i)` is named for removing by position, and its comment at
RecursiveList.java line 90, "Remove the node that contained data", means the cell at `i` should
go. The code instead reads `get(i)` and removes the first element equal to it, which can be an
earlier cell. `RemoveAt` does what the code does (see "## Findings").

## Model

| member | source | states |
|---|---|---|
| `Sequences.FirstIndex` | recursive-list-student/src/structures/RecursiveList.java:148-153 | -1 exactly when the element is absent; otherwise a position holding the element with no equal element before it |
| `Sequences.InsertIndex` | recursive-list-student/src/structures/RecursiveList.java:51-56 | one element longer; the new element at the index, earlier elements in place, later ones shifted up by one |
| `Sequences.RemoveIndex` | recursive-list-student/src/structures/RecursiveList.java:195-201 | one element shorter; earlier elements in place, later ones shifted down by one |
| `Sequences.RemoveFirstOccurrence` | recursive-list-student/src/structures/RecursiveList.java:113-126 | unchanged when the element is absent; otherwise one shorter, with exactly one copy of the element taken out of the multiset |
| `Sequences.RemoveAtAsWritten` | recursive-list-student/src/structures/RecursiveList.java:87-92 | removal by position as written removes one element |
| `Sequences.RemoveAtAsWrittenRemovesFirstEqual` | recursive-list-student/src/structures/RecursiveList.java:89-90 | what removeAt(i) removes is position j, the first position holding an element equal to the one at i, and j <= i |
| `Sequences.RemoveAtAsWrittenWithoutEarlierCopy` | recursive-list-student/src/structures/RecursiveList.java:89-90 | when no equal element precedes position i, removeAt(i) removes exactly position i |
| `Sequences.RemoveAtAsWrittenSameElements` | recursive-list-student/src/structures/RecursiveList.java:89-90 | removeAt(i) as written and removal of position i leave the same multiset of elements |
| `Sequences.RemoveAtAsWrittenCounterexample` | recursive-list-student/src/structures/RecursiveList.java:89-90 | on [0, 1, 0] at position 2, removeAt as written leaves [1, 0] where removal of position 2 leaves [0, 1] |
| `Sequences.RemoveIndexElements` | recursive-list-student/src/structures/RecursiveList.java:195-201 | removing position i takes exactly one copy of the element at i out of the multiset |
| `Sequences.RemoveIndexUndoesInsertIndex` | recursive-list-student/src/structures/RecursiveList.java:47-58 | inserting at an index and removing that index restores the sequence |
| `Nodes.Node.constructor` | recursive-list-student/src/structures/RecursiveList.java:24 | a new cell holds the given element and links |
| `Nodes.ChainStep` | recursive-list-student/src/structures/RecursiveListIterator.java:21-22 | stepping from the first cell of a chain yields that cell's element and leaves a chain of the remaining cells |
| `ListIterators.RecursiveListIterator.constructor` | recursive-list-student/src/structures/RecursiveListIterator.java:9-11 | the cursor starts at the given cell, with the given chain still to visit |
| `ListIterators.RecursiveListIterator.HasNext` | recursive-list-student/src/structures/RecursiveListIterator.java:14-16 | true iff the cursor is a cell, iff something remains to be yielded; reads only |
| `ListIterators.RecursiveListIterator.Next` | recursive-list-student/src/structures/RecursiveListIterator.java:19-26 | on a cell: yields its element (the first remaining one) and moves the cursor to its next; on null: NoSuchElement and the cursor stays null; modifies only the iterator |
| `RecursiveLists.RecursiveList.constructor` | recursive-list-student/src/structures/RecursiveList.java:7-9 | a new list is valid and empty |
| `RecursiveLists.RecursiveList.SingletonIffHeadIsTail` | recursive-list-student/src/structures/RecursiveList.java:25-26 | in a valid list, size is 1 iff head and tail are the same cell |
| `RecursiveLists.RecursiveList.Iterator` | recursive-list-student/src/structures/RecursiveList.java:12-14 | a fresh, valid iterator whose remaining elements are exactly the list's contents, over the list's own cells |
| `RecursiveLists.RecursiveList.Size` | recursive-list-student/src/structures/RecursiveList.java:17-19 | the number of elements |
| `RecursiveLists.RecursiveList.IsEmpty` | recursive-list-student/src/structures/RecursiveList.java:135-137 | true iff the contents are empty, iff head and tail are both null |
| `RecursiveLists.RecursiveList.InsertFirst` | recursive-list-student/src/structures/RecursiveList.java:22-32 | null: NullElement and nothing changes; otherwise contents become [e] + old contents, size grows by one, the new head is a fresh cell, head == tail when the list was empty, Valid() kept |
| `RecursiveLists.RecursiveList.InsertLast` | recursive-list-student/src/structures/RecursiveList.java:35-44 | null: NullElement and nothing changes; otherwise contents become old contents + [e], size grows by one, the new tail is a fresh cell, head == tail when the list was empty, Valid() kept |
| `RecursiveLists.RecursiveList.InsertAt` | recursive-list-student/src/structures/RecursiveList.java:47-58 | index outside 0..size: IndexOutOfBounds (even for a null element) and nothing changes; null: NullElement and nothing changes; otherwise contents become old[..i] + [e] + old[i..] with a fresh cell at i |
| `RecursiveLists.RecursiveList.RemoveFirst` | recursive-list-student/src/structures/RecursiveList.java:61-71 | empty: EmptyList and nothing changes; otherwise returns old[0] and contents become old[1..]; a one-element list ends with head and tail null |
| `RecursiveLists.RecursiveList.RemoveLast` | recursive-list-student/src/structures/RecursiveList.java:74-84 | empty: EmptyList and nothing changes; otherwise returns the last element and contents lose it; a one-element list ends with head and tail null |
| `RecursiveLists.RecursiveList.RemoveAt` | recursive-list-student/src/structures/RecursiveList.java:87-92 | index outside 0..size-1: IndexOutOfBounds and nothing changes; otherwise returns old[i] and removes position j, the first position j <= i holding an equal element, from both contents and cells |
| `RecursiveLists.RecursiveList.RemoveAtIndex` | recursive-list-student/src/structures/RecursiveList.java:87-92 | corrected removal by position: returns old[i] and removes exactly cell i, by the same head, tail and middle cases as remove |
| `RecursiveLists.RecursiveList.GetFirst` | recursive-list-student/src/structures/RecursiveList.java:95-98 | empty: EmptyList; otherwise the first element; reads only |
| `RecursiveLists.RecursiveList.GetLast` | recursive-list-student/src/structures/RecursiveList.java:101-104 | empty: EmptyList; otherwise the last element; reads only |
| `RecursiveLists.RecursiveList.Get` | recursive-list-student/src/structures/RecursiveList.java:107-110 | 0 <= i < size: the element at i; i == size: NullDereference; otherwise IndexOutOfBounds; reads only |
| `RecursiveLists.RecursiveList.Remove` | recursive-list-student/src/structures/RecursiveList.java:113-126 | null: NullElement; absent: false and nothing changes; present: true and exactly the first occurrence (position indexOf(e)) is removed from contents and cells |
| `RecursiveLists.RecursiveList.IndexOf` | recursive-list-student/src/structures/RecursiveList.java:129-132 | null: NullElement; otherwise the least position holding the element, or -1 when it is absent; reads only |
| `RecursiveLists.RecursiveList.IndexOfFrom` | recursive-list-student/src/structures/RecursiveList.java:148-153 | walking from the cell at index, the first position at or after index holding the element, or -1 |
| `RecursiveLists.RecursiveList.GetFrom` | recursive-list-student/src/structures/RecursiveList.java:162-164 | walking from the cell at index, the element at position i; at i == size the walk reaches null and fails |
| `RecursiveLists.RecursiveList.GetNode` | recursive-list-student/src/structures/RecursiveList.java:172-175 | 0 <= i < size: the cell at position i; otherwise IndexOutOfBounds |
| `RecursiveLists.RecursiveList.GetNodeFrom` | recursive-list-student/src/structures/RecursiveList.java:184-186 | walking from the cell at index, the cell at position i |
| `RecursiveLists.RecursiveList.LinkNextAndPriorNode` | recursive-list-student/src/structures/RecursiveList.java:195-201 | splicing out a middle cell at index removes that index from both cells and contents and keeps Valid() |
| `RecursiveLists.RecursiveList.LinkNextAndPriorNodeToCurrentNode` | recursive-list-student/src/structures/RecursiveList.java:210-214 | splicing in a new cell whose links name the cells at index-1 and index inserts it at index in both cells and contents and keeps Valid() |
| `Scenarios.Traverse` | recursive-list-student/src/structures/RecursiveListIterator.java:19-26 | a fresh iterator over a valid list yields exactly its contents in order, and the call after the last element fails with NoSuchElement |
| `Scenarios.FromSeq` | recursive-list-student/src/structures/RecursiveList.java:35-44 | inserting each element of s at the back builds a valid list whose contents are s and whose size is the number of inserts |
| `Scenarios.RoundTripThroughList` | recursive-list-student/src/structures/RecursiveList.java:12-14 | building a list from s and iterating it gives s back |
| `Scenarios.InsertFirstReversesOrder` | recursive-list-student/src/structures/RecursiveList.java:22-32 | insertFirst a, b, c iterates as c, b, a |
| `Scenarios.InsertLastKeepsOrder` | recursive-list-student/src/structures/RecursiveList.java:35-44 | insertLast a, b, c iterates as a, b, c |
| `Scenarios.InsertAtMiddle` | recursive-list-student/src/structures/RecursiveList.java:47-58 | insertAt(1, x) on [a, b, c] gives [a, x, b, c], and get(1) then gives x |
| `Scenarios.InsertLastThenRemoveLast` | recursive-list-student/src/structures/RecursiveList.java:74-84 | insertLast(x) then removeLast() returns x and restores the size |
| `Scenarios.EmptyingASingleton` | recursive-list-student/src/structures/RecursiveList.java:61-104 | removeFirst, removeLast and removeAt(0) each empty a one-element list, after which getFirst and getLast fail with EmptyList on each of the three lists |
| `Scenarios.NullInsertionsRejected` | recursive-list-student/src/structures/RecursiveList.java:22-58 | every insert of null fails with NullElement and keeps the size; insertAt with a bad index reports IndexOutOfBounds first |
| `Scenarios.RemoveByValue` | recursive-list-student/src/structures/RecursiveList.java:113-126 | remove(x) of a present element returns true and shrinks the size by one; of an absent one returns false and keeps the size |

## Left out

- Java `null` as a stored element: elements have a non-nullable type. Arguments that may be null are `Nullable<T>`, and the null checks are modelled.
- Exception propagation: each exception is returned as an `Error` value. A failing call is specified to change nothing.
- The fluent `return this` of the insert operations is not modelled. They return a `Status` instead.
- `equals` at RecursiveList.java:150 is modelled as Dafny equality, which assumes it is an equivalence.
- `size` is Java's 32-bit `int`; the model uses unbounded integers. Wrap-around would take 2^31 elements.
- Recursion depth: the recursive helpers are recursive functions. A stack overflow on a long list is not modelled.
- Changing the list while an iterator is live: the source neither defines nor detects it, so the iterator is specified only over an unchanged chain.
- The `DLNode` class and `ListInterface` are not part of this model. The cell's fields are accessed directly, and its element is a constant because nothing in the list or its iterator writes it.
- `Get` at `i == size`: the walk past the tail is modelled as one failure value, `NullDereference`. The null dereference itself is not modelled.

## Findings

| source | as written | input that shows it | evidently intended | confidence | as-written member | corrected member |
|---|---|---|---|---|---|---|
| recursive-list-student/src/structures/RecursiveList.java:89-90 | `removeAt(i)` reads `get(i)` and removes the first element equal to it, which can be before `i` | `[0, 1, 0]` with `removeAt(2)` leaves `[1, 0]` | remove the element at position `i`, leaving `[0, 1]`, as the comment at line 90 says ("the node that contained data") | not executed | `Sequences.RemoveAtAsWrittenCounterexample` | `RecursiveLists.RecursiveList.RemoveAtIndex` |

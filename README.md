# Singly-linked list, modelled in Dafny

A model of the generic container `SingleLinkedList<Type>`
(single-linked-list/single-linked-list.h). The container is a chain of heap
nodes hanging off a value-less sentinel, `head_`, which is the
"before-begin" position. An element counter, `size_`, sits beside it.
Cursors are node pointers: the sentinel for before-begin, null for end.

The model keeps that shape:

- `Chain.Node` is a class with mutable `value` and `next` fields.
- `LinkedList.Iterator` is a class holding a node reference.
- `LinkedList.SingleLinkedList` is a class with:
  - the sentinel, `head`;
  - the counter, `size`;
  - the ghost sequences `nodes` (the value-bearing nodes in chain order) and `elems` (their values).

Every mutator relinks `next` fields in place. Its postcondition gives the new `nodes`, `elems` and `size` in terms of the old ones.

The class invariant is split in two:

- `Linked()`: the chain from the sentinel is exactly `nodes`, acyclic and null-terminated, and holds `elems`.
- `Valid()`: `Linked()` and `size == |nodes|`.

The split matters because the copy constructor as written leaves a list that is `Linked()` but not `Valid()` (see Findings).

Files:

- `Chain.dfy`: the node class, and what it means for a run of nodes to be linked. It also has the lemmas that relinking one node keeps a run linked and free of repeats.
- `LinkedList.dfy`:
  - the iterator, the list class and the free `swap`: the members listed in "## Model"; the rest are under "## Left out";
  - `LinkAfter` and `UnlinkAfter`, the two statements several members share;
  - `LinkLast`, one step of the copy loop.
- `Comparison.dfy`:
  - the free comparison operators as functions on element sequences, with their order lemmas;
  - the list-level operators, which read both chains and apply those functions.
- `Examples.dfy`: small client programs with their known outcomes as postconditions.

The copy constructor differs from its evident design intent; see Findings. The model follows the code, and the corrected constructor is modelled beside it.

## Model

| member | source | states |
|---|---|---|
| Chain.Node.Sentinel | single-linked-list/single-linked-list.h:11-17 | The default-constructed sentinel node has no successor. |
| Chain.Node.constructor | single-linked-list/single-linked-list.h:12-15 | A node holds the given value and links to the given successor. |
| Chain.SegmentInsert | single-linked-list/single-linked-list.h:191 | Linking a new node between the k-th node and its successor yields one linked, repeat-free run. Its node set is the old one plus the new node. |
| Chain.SegmentRemove | single-linked-list/single-linked-list.h:199-200 | Pointing the k-th node past its successor yields one linked, repeat-free run. The unlinked node leaves its node set. |
| LinkedList.Iterator.constructor | single-linked-list/single-linked-list.h:23 | A cursor references exactly the node it is built from. |
| LinkedList.Iterator.Increment | single-linked-list/single-linked-list.h:56-61 | Prefix `++` moves to the successor; an end cursor stays at end. |
| LinkedList.Iterator.PostIncrement | single-linked-list/single-linked-list.h:63-67 | Postfix `++` returns a fresh cursor on the old node and advances like prefix `++`. |
| LinkedList.SingleLinkedList.constructor | single-linked-list/single-linked-list.h:84 | The default list is valid and empty with size 0, and all its objects are new. |
| LinkedList.SingleLinkedList.FromValues | single-linked-list/single-linked-list.h:86-90 | The counter is set first, then the values are pushed in reverse. The result is valid, holds exactly the input in order, and its size is the input's length. |
| LinkedList.SingleLinkedList.Copy | single-linked-list/single-linked-list.h:92-105 | The intended copy: valid, with the source's elements and size, and every node new. |
| LinkedList.SingleLinkedList.CopyAsWritten | single-linked-list/single-linked-list.h:92-105 | The copy as written, of any linked list (including one an earlier broken copy produced): its size is the source's size, it has no elements, and it is not valid whenever the source's counter is non-zero. |
| LinkedList.SingleLinkedList.LinkCopyOf | single-linked-list/single-linked-list.h:95-103 | The copy loop links new nodes holding exactly the other list's elements, in order, behind the sentinel. The counter is left alone. |
| LinkedList.SingleLinkedList.LinkLast | single-linked-list/single-linked-list.h:99-101 | One loop step: a new node holding the value becomes the last node, and nothing else changes. |
| LinkedList.SingleLinkedList.Assign | single-linked-list/single-linked-list.h:107-113 | With the intended copy, assignment leaves a valid list holding the right-hand side's elements. Self-assignment keeps the nodes. Otherwise every node is new. The right-hand side stays valid, with its nodes and elements unchanged. |
| LinkedList.SingleLinkedList.AssignAsWritten | single-linked-list/single-linked-list.h:107-113 | With the copy as written, on any linked lists: assigning another list leaves no elements but the other list's size. Self-assignment changes nothing. The right-hand side is left as it was. |
| LinkedList.SingleLinkedList.GetSize | single-linked-list/single-linked-list.h:119-121 | On a valid list the counter is the number of elements. |
| LinkedList.SingleLinkedList.IsEmpty | single-linked-list/single-linked-list.h:123-125 | True iff the counter is zero. On a valid list, true iff there are no elements. |
| LinkedList.SingleLinkedList.Begin | single-linked-list/single-linked-list.h:134-136 | The cursor references the first node, or is end on an empty list. |
| LinkedList.SingleLinkedList.End | single-linked-list/single-linked-list.h:138-140 | The end cursor references no node. |
| LinkedList.SingleLinkedList.BeforeBegin | single-linked-list/single-linked-list.h:158-160 | The before-begin cursor references the sentinel. |
| LinkedList.SingleLinkedList.Values | single-linked-list/single-linked-list.h:48-72 | A walk from begin to end that dereferences and advances yields exactly the elements, in order. |
| LinkedList.SingleLinkedList.Swap | single-linked-list/single-linked-list.h:170-173 | The two chains and counters are exchanged, and both lists stay linked. |
| LinkedList.SingleLinkedList.PushValue | single-linked-list/single-linked-list.h:220-222 | A new node holding the value becomes the first node. The old nodes follow unchanged, and the counter is left alone. |
| LinkedList.SingleLinkedList.LinkAfter | single-linked-list/single-linked-list.h:191 | A new node holding the value is placed right after the k-th position, and the other nodes keep their order. |
| LinkedList.SingleLinkedList.PushFront | single-linked-list/single-linked-list.h:175-178 | The contents become `[v] + old`, the size grows by one, and the old nodes follow the new one untouched. This holds on any linked list, including a broken copy, and a valid list stays valid. |
| LinkedList.SingleLinkedList.PopFront | single-linked-list/single-linked-list.h:180-187 | When the counter is positive it removes exactly the first element and decrements the size. At a zero counter it changes nothing. This holds on any linked list that has a first node whenever the counter is positive, and a valid list stays valid. |
| LinkedList.SingleLinkedList.InsertAfter | single-linked-list/single-linked-list.h:189-194 | The value is placed right after `pos`, every other node keeps its order, the size grows by one, and a cursor on the new node is returned. This holds on any linked list, and a valid list stays valid. |
| LinkedList.SingleLinkedList.EraseAfter | single-linked-list/single-linked-list.h:196-205 | When the counter is positive it removes exactly the element after `pos` and decrements the size. It returns a cursor on `pos`'s new successor, or end. At a zero counter it changes nothing. This holds on any linked list, and a valid list stays valid. |
| LinkedList.SingleLinkedList.Clear | single-linked-list/single-linked-list.h:207-214 | Every node is unlinked and the size becomes 0, whatever the counter said before. |
| LinkedList.SingleLinkedList.UnlinkAfter | single-linked-list/single-linked-list.h:199-200 | The node after the k-th position is unlinked, the other nodes keep their order, and only that node leaves the list's objects. |
| LinkedList.Swap | single-linked-list/single-linked-list.h:226-229 | The free `swap` exchanges the two lists' nodes, elements and sizes, so no node changes identity. Both lists stay linked, and valid lists stay valid. |
| Comparison.RangeEqual | single-linked-list/single-linked-list.h:236 | Element-wise equality of a range with the start of another, stopping at the first mismatch, holds iff the range is a prefix of the other. It is defined whenever the walk stays inside the other range: that range is at least as long, or a mismatch comes first. |
| Comparison.Equal | single-linked-list/single-linked-list.h:231-237 | Equal sizes and pairwise-equal elements hold iff the sequences are equal. |
| Comparison.NotEqual | single-linked-list/single-linked-list.h:239-242 | `!=` holds iff the sequences differ. |
| Comparison.LexLess | single-linked-list/single-linked-list.h:244-247 | The walk of `std::lexicographical_compare`. Nothing is less than an empty range, and an empty range is less than any non-empty one. Its meaning under a strict total order is `LexLessIffFirstDifference`. |
| Comparison.LessEq | single-linked-list/single-linked-list.h:249-252 | `<=` as "the right-hand side is not less". An empty range is `<=` anything, and only an empty range is `<=` an empty one. Its meaning is `LessEqIff`. |
| Comparison.Greater | single-linked-list/single-linked-list.h:254-257 | `>` as `<` with the operands exchanged. An empty range is greater than nothing, and every non-empty range is greater than an empty one. Its meaning is `GreaterIff`. |
| Comparison.GreaterEq | single-linked-list/single-linked-list.h:259-262 | `>=` as "not less". Anything is `>=` an empty range, and an empty range is `>=` only an empty one. Its meaning is `GreaterEqIff`. |
| Comparison.LexLessIrreflexive | single-linked-list/single-linked-list.h:244-247 | Under an irreflexive element order, no sequence is less than itself. |
| Comparison.ProperPrefixIsLess | single-linked-list/single-linked-list.h:244-247 | A proper prefix is less than the longer sequence. |
| Comparison.LexLessIffFirstDifference | single-linked-list/single-linked-list.h:244-247 | Under a strict total order, `a < b` holds iff `a` is a proper prefix of `b` or the first differing element of `a` is smaller. |
| Comparison.LexLessTrichotomy | single-linked-list/single-linked-list.h:244-247 | Under a strict total order, exactly one of `a < b`, `a == b`, `b < a` holds. |
| Comparison.LexLessTransitive | single-linked-list/single-linked-list.h:244-247 | Under a strict total order, the lexicographic `<` is transitive. |
| Comparison.LessEqIff | single-linked-list/single-linked-list.h:249-252 | Under a strict total order, `<=` holds iff less or equal. |
| Comparison.GreaterIff | single-linked-list/single-linked-list.h:254-257 | Under a strict total order, `>` holds iff neither less nor equal. |
| Comparison.GreaterEqIff | single-linked-list/single-linked-list.h:259-262 | Under a strict total order, `>=` holds iff greater or equal. |
| Comparison.ListEqual | single-linked-list/single-linked-list.h:231-237 | The list `==` answers whether the counters agree, the left chain is no longer than the right one, and the left elements match the start of the right ones. It is defined on every input where the walk stops at a mismatch before the right chain ends. On valid lists, it answers whether the elements are equal. |
| Comparison.ListNotEqual | single-linked-list/single-linked-list.h:239-242 | The list `!=` is the negation of the list `==`, on the same inputs. On valid lists, it answers whether the elements differ. |
| Comparison.ListLess | single-linked-list/single-linked-list.h:244-247 | The list `<` is the lexicographic comparison of the elements. Under a strict total order: a proper prefix, or a smaller first difference. |
| Comparison.ListLessEq | single-linked-list/single-linked-list.h:249-252 | The list `<=` is "not `rhs < lhs`". Under a strict total order: less or equal. |
| Comparison.ListGreater | single-linked-list/single-linked-list.h:254-257 | The list `>` is `rhs < lhs`. Under a strict total order: neither less nor equal. |
| Comparison.ListGreaterEq | single-linked-list/single-linked-list.h:259-262 | The list `>=` is "not `lhs < rhs`". Under a strict total order: greater or equal. |
| Examples.PushThenPop | single-linked-list/single-linked-list.h:175-187 | Pushing 3, 2, 1 gives [1, 2, 3]; a pop leaves [2, 3] and size 2. |
| Examples.PopEmpty | single-linked-list/single-linked-list.h:180-187 | Popping an empty list leaves it empty. |
| Examples.FromInitializerList | single-linked-list/single-linked-list.h:86-90 | `{1, 2, 3}` iterates as 1, 2, 3 and has size 3. |
| Examples.InsertAtFront | single-linked-list/single-linked-list.h:189-194 | Inserting 0 after before-begin on [1, 2] gives [0, 1, 2], and the returned cursor reads 0. |
| Examples.InsertInMiddle | single-linked-list/single-linked-list.h:189-194 | Inserting 5 after the first element of [1, 2] gives [1, 5, 2]. |
| Examples.EraseSome | single-linked-list/single-linked-list.h:196-205 | Erasing after before-begin on [1, 2, 3] returns a cursor reading 2. Erasing after that cursor leaves [2] and returns end. |
| Examples.EraseLast | single-linked-list/single-linked-list.h:196-205 | Erasing after the element 2 of [1, 2, 3] leaves [1, 2] and returns end. |
| Examples.ClearTwice | single-linked-list/single-linked-list.h:207-214 | Clearing twice leaves an empty list. |
| Examples.AdvanceEnd | single-linked-list/single-linked-list.h:56-67 | Advancing an end cursor, prefix or postfix, stays at end. |
| Examples.SwapTwo | single-linked-list/single-linked-list.h:226-229 | Swapping [1, 2] with [3] exchanges elements and sizes. |
| Examples.CopyIsIndependent | single-linked-list/single-linked-list.h:92-105 | The intended copy of [1, 2, 3] holds [1, 2, 3]. Pushing onto the copy leaves the original unchanged. |
| Examples.CopyAsWrittenIsEmpty | single-linked-list/single-linked-list.h:92-105 | The copy as written of [1, 2, 3] has size 3 and no elements, yet `copy == original` answers true. |
| Examples.BrokenCopyPropagates | single-linked-list/single-linked-list.h:92-113 | Copying as written, assigning the original into that copy and copying it again gives size 3 and no elements, and `!=` against the original answers false. |
| Examples.GrowBrokenCopy | single-linked-list/single-linked-list.h:175-194 | On the as-written copy of [1, 2, 3], pushing 0 gives [0] with size 4, and inserting 7 after before-begin gives [7, 0] with size 5. |
| Examples.PopBrokenCopy | single-linked-list/single-linked-list.h:175-187 | On the as-written copy of [1, 2, 3] with 0 pushed, popping leaves no elements and size 3. |
| Examples.EqualStopsAtMismatch | single-linked-list/single-linked-list.h:231-242 | {1, 2, 3} against the broken copy of {1, 2} with 5 pushed: the counters agree, the walk stops at 1 against 5, `==` answers false and `!=` answers true. |
| Examples.AssignKeepsSource | single-linked-list/single-linked-list.h:107-113 | After `b = a`, both lists hold `a`'s elements. |
| Examples.PrefixIsLess | single-linked-list/single-linked-list.h:244-247 | [1, 2] < [1, 2, 3] under integer `<`. |
| Examples.FirstDifferenceDecides | single-linked-list/single-linked-list.h:254-257 | [1, 3] > [1, 2] under integer `<`. |
| Examples.EqualSizeDifferent | single-linked-list/single-linked-list.h:231-237 | [1, 2] == [1, 3] is false. |

## Left out

- Memory management is not modelled: `new`/`delete`, the destructor (single-linked-list/single-linked-list.h:115-117), leak freedom and allocation failure. Dafny is garbage-collected, so unlinked nodes are simply no longer part of the list.
- Strong exception safety of the copy is not modelled, because no allocation can fail.
- The debug `assert`s on a non-null cursor (:70, :76, :190, :197) are preconditions, not aborts.
- Iterator type machinery is left out:
  - the `const`/non-const iterator split, the iterator typedefs, the converting iterator constructor and `operator->`;
  - `cbegin`/`cend`/`cbefore_begin` and the `const` overloads, which return the same positions as `Begin`/`End`/`BeforeBegin`;
  - iterator `==`/`!=`, which compare node identity and are written as `a.node == b.node` where they are used.
- `operator*` is a read of `it.node.value` with the node non-null.
- `operator=` returning `*this` is not modelled; `Assign` returns nothing.
- `size_t` wrap-around is not modelled: `size` is a `nat`. Each operation raises the largest counter by at most one, or to the length of an initializer list held in memory. So reaching 2^64 would take about 2^64 operations, even though the broken copy lets a counter grow with no nodes to match.
- The element order used by `<` is a parameter `less`, not a type's `operator<`. The order lemmas assume it is a strict total order.
- Element `==` in `RangeEqual`, `Equal`, `NotEqual`, `ListEqual` and `ListNotEqual` is Dafny equality. An element type whose `operator==` is not identity is not modelled: one coarser than identity, such as case-insensitive strings, or one that is not reflexive, such as floating-point NaN.
- LinkedList.SingleLinkedList.InsertAfter: requires `pos` to be a position of this list (its sentinel or one of its nodes). The source does not check this, and a cursor into another list would silently corrupt both lists' counters.
- LinkedList.SingleLinkedList.PopFront: requires a first node when the counter is non-zero. The source dereferences the sentinel's null successor in that case, which is undefined behaviour. The broken copy reaches this case: popping the as-written copy of a non-empty list.
- LinkedList.SingleLinkedList.EraseAfter: requires `pos` to be a position of this list, and requires a successor when the counter is non-zero. The source dereferences a null successor in that case, which is undefined behaviour.
- LinkedList.SingleLinkedList.Swap: requires the two lists to be the same object, or distinct objects with distinct sentinels where neither sentinel lies in the other's chain. Lists built by this container never share a sentinel or a node, so this excludes no reachable state. The same requirement is on `LinkedList.Swap`, `Assign` and `AssignAsWritten`.
- LinkedList.SingleLinkedList.Copy: requires the source list to be valid. Copying an already-broken list is not modelled.
- LinkedList.SingleLinkedList.Assign: requires both lists to be valid, for the same reason as `Copy`. `AssignAsWritten` needs only linked lists.
- Comparison.ListEqual: when the counters agree, requires the element walk to stay inside the right chain. That means the right chain is at least as long, or a mismatch comes before it ends. Otherwise the walk runs past the end of the right list, which is undefined behaviour. This can only happen when the right chain is a proper prefix of the left one, and valid lists never meet it.
- Comparison.ListNotEqual: has the same requirement as `ListEqual`, for the same reason.
- LinkedList.SingleLinkedList.GetSize: states the counter's meaning only for valid lists. The copy as written produces a list whose counter is wrong.

## Findings

| source | as written | input that shows it | evidently intended | confidence | as-written member | corrected member |
|---|---|---|---|---|---|---|
| single-linked-list/single-linked-list.h:96 | The copy loop starts from `&head_`, so the copies are linked behind the new object's own sentinel, not the temporary's. The swap at :104 then gives the new object the temporary's empty chain and the copied counter. | Copying the list {1, 2, 3} gives size 3 with no elements, and `copy == original` still answers true. | Start from `&temp.head_`, so the swap moves the copied chain in. The copy then holds the original's elements and size. | not executed | LinkedList.SingleLinkedList.CopyAsWritten | LinkedList.SingleLinkedList.Copy |

The copy-then-swap design of the copy constructor promises a copy with equal size and elements. The code does not deliver it, as the Findings row shows. `CopyAsWritten` and `AssignAsWritten` follow the code. `Copy` and `Assign` model the intended behaviour, and that behaviour is proved for them.

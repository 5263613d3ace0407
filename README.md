# Verified model of the `structures` containers

This project models eight hand-written C++ container templates from namespace `structures`:

- two binary search trees: `AVLTree` and `BinaryTree`;
- three index-addressed lists:
  - `DoublyLinkedList`, with `head` and `tail`;
  - `DoublyCircularList`, a doubly linked ring through a sentinel node;
  - `CircularList`, a singly linked list hanging off a sentinel node;
- two stacks, `LinkedStack` and `ArrayStack`, and one queue, `ArrayQueue`.

The element type is `int` for the lists and trees and generic for the stacks and the queue. Every
`std::out_of_range` the containers throw becomes an `Exceptions.Error` value, one constructor per
message. An operation that may throw returns `Result` (a value or an error) or `Outcome` (done or
an error).

## How each container is modelled

**Lists and `LinkedStack`.** Each is a class over heap `Node` objects, with the C++ fields. Two
ghost fields carry the abstract state:

- `Contents`, the elements in order;
- `Nodes`, the nodes holding them.

`Valid()` is the link invariant, in each class's own shape:

- `DoublyLinkedList`: `next` walks `Nodes` in order from `head` to `tail`, `prev` walks it back,
  and the two outer links are null.
- `DoublyCircularList`: when non-empty, the ring closes through the sentinel in both
  directions; when empty, the sentinel's links are null.
- `CircularList`: `next` walks `Nodes` in order from the sentinel. The last link is the sentinel,
  or null. Null occurs after inserting at index 0 into an empty list, which is harmless because
  every loop is bounded by `size_`.

Every operation is specified against `Contents`, using `InsertAt`, `RemoveAt`, `IndexOf`,
`RemoveFirst` and `SortedIndex` from module `Sequences`.

**`ArrayStack` and `ArrayQueue`.** These keep their fixed-size `array`. `Contents()` is a prefix
of it.

**Trees.**

- Tree nodes are datatype values. Each node has exactly one owner, so overwriting a child in place
  is the same as replacing that subtree.
- `Node::remove` returns a `Removal`: its `bool` result and the node's new value.
- The tree classes hold `root` and the `size_` counter. The counter is a 64-bit unsigned value,
  and its wrap-around is modelled in module `SizeT`.
- The AVL tree's height arithmetic is kept as written. `updateHeight` takes the larger of the
  children's heights without adding one, so every height stays 0 and every balance factor is 0.
- The model proves that the balance factor is 0 after every insertion and removal, so the
  rebalancing guards are false. It also proves that `AVLTree` behaves exactly like the
  unbalanced tree it erases to (`AVLTrees.Tree.Erase`).

The trees' quirks are stated in the model as follows:

- `size_` counts calls, not nodes. The `Insert` and `Remove` method contracts say so, and the
  `EmptyWithNodes` and `NodesGoneNotEmpty` methods show `empty()` disagreeing with the nodes
  both ways.
- `remove` returns results that callers ignore, so a promoted leaf stays in the tree. The
  lemmas `PromotedLeafStays` state this for every tree whose walk ends at a node promoting a leaf child's key, and an example shows it on one tree.
- Promoting a child's own key can break the search order. One example tree shows it.
- `AVLTree::remove` takes out a key even when the requested key is absent. `RemovedKeys`
  states this for every tree with distinct, ordered keys, and an example shows it on one tree.

## Model

| member | source | states |
|---|---|---|
| SizeT.Wrap | Lists/DoublyLinkedList/doubly_linked_list.hpp:260-263 | the value an integer takes as a `std::size_t`: in range, congruent to the input, the identity on in-range values (`pop_back` passes `size_ - 1`) |
| SizeT.Inc | Trees/AVL_Tree/avl_tree.hpp:303 | `size_++` on a `std::size_t`: one more, or 0 after the largest value |
| SizeT.Dec | Trees/AVL_Tree/avl_tree.hpp:358 | `size_--` on a `std::size_t`: one less, or the largest value after 0 |
| SizeT.DecTimes | Trees/BinaryTree/binary_tree.hpp:202-213 | `k` successive decrements of a counter; equal to `n - k` when no wrap-around happens |
| Sequences.InsertAt | Lists/DoublyLinkedList/doubly_linked_list.hpp:163-199 | the list after inserting `d` at index `i`: one longer, `d` at `i`, the prefix kept and the suffix shifted up by one |
| Sequences.RemoveAt | Lists/DoublyLinkedList/doubly_linked_list.hpp:216-258 | the list after taking out index `i`: one shorter, the prefix kept and the suffix shifted down by one |
| Sequences.InsertAtMultiset | Lists/DoublyLinkedList/doubly_linked_list.hpp:163-199 | inserting adds exactly one occurrence of `d` and loses nothing |
| Sequences.RemoveAtMultiset | Lists/DoublyLinkedList/doubly_linked_list.hpp:216-258 | a pop loses exactly one occurrence of the popped element |
| Sequences.InsertAtEnds | Lists/DoublyLinkedList/doubly_linked_list.hpp:153-160 | inserting at `size` appends and inserting at 0 prepends (`push_back` and `push_front` delegate to `insert`) |
| Sequences.RemoveAtEnds | Lists/DoublyLinkedList/doubly_linked_list.hpp:261-268 | popping index `size-1` drops the last element and popping index 0 the first |
| Sequences.RemoveAtInsertAt | Lists/DoublyLinkedList/doubly_linked_list.hpp:163-258 | popping the index just inserted at restores the list |
| Sequences.InsertAtRemoveAt | Lists/DoublyLinkedList/doubly_linked_list.hpp:163-258 | re-inserting a popped element at its index restores the list |
| Sequences.DistinctInsertAt | Lists/DoublyLinkedList/doubly_linked_list.hpp:163-199 | a fresh node spliced in anywhere keeps the nodes pairwise distinct |
| Sequences.DistinctRemoveAt | Lists/DoublyLinkedList/doubly_linked_list.hpp:216-258 | unlinking a node keeps the rest distinct, and the unlinked node is no longer among them |
| Sequences.OutsideInsertAt | Lists/DoublyCircularList/doubly_circular_list.hpp:163-189 | a node outside the list (the sentinel) stays outside after an insertion of another node |
| Sequences.OutsideRemoveAt | Lists/DoublyCircularList/doubly_circular_list.hpp:206-234 | a node outside the list stays outside after a removal |
| Sequences.IndexOf | Lists/DoublyLinkedList/doubly_linked_list.hpp:339-351 | `find`: the first index holding `d`, or `size` exactly when `d` is absent |
| Sequences.RemoveFirst | Lists/DoublyLinkedList/doubly_linked_list.hpp:271-274 | `remove`: drops exactly one occurrence of `d`, the first, when present; unchanged otherwise |
| Sequences.SortedIndex | Lists/DoublyLinkedList/doubly_linked_list.hpp:202-213 | where `insert_sorted` stops: every earlier element is less than `d` and the one there is not |
| Sequences.InsertSortedKeepsSorted | Lists/DoublyLinkedList/doubly_linked_list.hpp:202-213 | `insert_sorted` keeps a sorted list sorted |
| DoublyLinkedNodes.Node.constructor | Lists/DoublyLinkedList/doubly_linked_list.hpp:75-79 | `Node(data, prev, next)` sets the three fields |
| DoublyLinkedNodes.Node.Sentinel | Lists/DoublyCircularList/doubly_circular_list.hpp:66-68 | `Node()`: the sentinel holds 0 and links to nothing |
| DoublyLinkedNodes.ChainInsertAt | Lists/DoublyLinkedList/doubly_linked_list.hpp:163-199 | a node spliced between two linked neighbours leaves the whole sequence linked both ways |
| DoublyLinkedNodes.ChainRemoveAt | Lists/DoublyLinkedList/doubly_linked_list.hpp:236-252 | neighbours re-linked past an unlinked node leave the rest linked both ways |
| DoublyLinkedNodes.StoresInsertAt | Lists/DoublyLinkedList/doubly_linked_list.hpp:163-199 | inserting a node and its element at the same index keeps each node holding its element |
| DoublyLinkedNodes.StoresRemoveAt | Lists/DoublyLinkedList/doubly_linked_list.hpp:216-258 | removing a node and its element at the same index keeps each node holding its element |
| DoublyLinkedLists.DoublyLinkedList.constructor | Lists/DoublyLinkedList/doubly_linked_list.hpp:129-131 | a new list is empty and satisfies the link invariant |
| DoublyLinkedLists.DoublyLinkedList.Clear | Lists/DoublyLinkedList/doubly_linked_list.hpp:139-150 | after walking and discarding every node the list is empty with `head` and `tail` null |
| DoublyLinkedLists.DoublyLinkedList.PushBack | Lists/DoublyLinkedList/doubly_linked_list.hpp:153-155 | appends `d` |
| DoublyLinkedLists.DoublyLinkedList.PushFront | Lists/DoublyLinkedList/doubly_linked_list.hpp:158-160 | prepends `d` |
| DoublyLinkedLists.DoublyLinkedList.Insert | Lists/DoublyLinkedList/doubly_linked_list.hpp:163-199 | throws "Invalid index" exactly when `index > size` and changes nothing then; otherwise `d` lands at `index`, the rest keeps its order and the link invariant holds |
| DoublyLinkedLists.DoublyLinkedList.LinkAfterTail | Lists/DoublyLinkedList/doubly_linked_list.hpp:174-177 | a node linked after `tail` becomes the last element |
| DoublyLinkedLists.DoublyLinkedList.LinkBeforeHead | Lists/DoublyLinkedList/doubly_linked_list.hpp:178-181 | a node linked before `head` becomes the first element |
| DoublyLinkedLists.DoublyLinkedList.LinkBefore | Lists/DoublyLinkedList/doubly_linked_list.hpp:192-194 | a node linked before the node at `index` becomes element `index` |
| DoublyLinkedLists.DoublyLinkedList.InsertSorted | Lists/DoublyLinkedList/doubly_linked_list.hpp:202-213 | `d` is inserted before the first element not less than it |
| DoublyLinkedLists.DoublyLinkedList.Pop | Lists/DoublyLinkedList/doubly_linked_list.hpp:216-258 | throws "Empty list" on an empty list, then "Invalid index" when `index >= size`, changing nothing; otherwise returns element `index` and removes exactly it |
| DoublyLinkedLists.DoublyLinkedList.UnlinkHead | Lists/DoublyLinkedList/doubly_linked_list.hpp:238-240 | unlinking `head` drops the first element |
| DoublyLinkedLists.DoublyLinkedList.UnlinkTail | Lists/DoublyLinkedList/doubly_linked_list.hpp:241-243 | unlinking `tail` drops the last element |
| DoublyLinkedLists.DoublyLinkedList.UnlinkBetween | Lists/DoublyLinkedList/doubly_linked_list.hpp:244-248 | unlinking an inner node drops element `index` |
| DoublyLinkedLists.DoublyLinkedList.PopBack | Lists/DoublyLinkedList/doubly_linked_list.hpp:261-263 | throws on an empty list; otherwise returns and drops the last element |
| DoublyLinkedLists.DoublyLinkedList.PopFront | Lists/DoublyLinkedList/doubly_linked_list.hpp:266-268 | throws on an empty list; otherwise returns and drops the first element |
| DoublyLinkedLists.DoublyLinkedList.Remove | Lists/DoublyLinkedList/doubly_linked_list.hpp:271-274 | throws on an empty list; otherwise drops the first occurrence of `d` if there is one |
| DoublyLinkedLists.DoublyLinkedList.Contains | Lists/DoublyLinkedList/doubly_linked_list.hpp:282-294 | throws on an empty list; otherwise membership |
| DoublyLinkedLists.DoublyLinkedList.At | Lists/DoublyLinkedList/doubly_linked_list.hpp:297-336 | throws on an empty list or `index >= size`; otherwise element `index`; nothing changes |
| DoublyLinkedLists.DoublyLinkedList.Find | Lists/DoublyLinkedList/doubly_linked_list.hpp:339-351 | throws on an empty list; otherwise the first index of `d`, or `size` when absent |
| DoublyLinkedLists.DoublyLinkedList.WalkFromHead | Lists/DoublyLinkedList/doubly_linked_list.hpp:183-186 | `k` steps of `next` from `head` reach the node of element `k` |
| DoublyLinkedLists.DoublyLinkedList.WalkFromTail | Lists/DoublyLinkedList/doubly_linked_list.hpp:187-190 | `k` steps of `prev` from `tail` reach the node of element `size-1-k` |
| DoublyLinkedLists.DoublyLinkedList.Empty | Lists/DoublyLinkedList/doubly_linked_list.hpp:277-279 | true exactly when the list holds no element |
| DoublyLinkedLists.DoublyLinkedList.Size | Lists/DoublyLinkedList/doubly_linked_list.hpp:354-356 | the number of elements |
| DoublyCircularLists.DoublyCircularList.constructor | Lists/DoublyCircularList/doubly_circular_list.hpp:129-131 | a new list is an empty ring: a sentinel with null links |
| DoublyCircularLists.DoublyCircularList.Ring | Lists/DoublyCircularList/doubly_circular_list.hpp:163-189 | position 0 of the ring is the sentinel and position `j` the node of element `j-1` |
| DoublyCircularLists.DoublyCircularList.Clear | Lists/DoublyCircularList/doubly_circular_list.hpp:140-150 | the walk over the ring ends with an empty list whose sentinel links are null; the sentinel is kept |
| DoublyCircularLists.DoublyCircularList.PushBack | Lists/DoublyCircularList/doubly_circular_list.hpp:153-155 | appends `d` |
| DoublyCircularLists.DoublyCircularList.PushFront | Lists/DoublyCircularList/doubly_circular_list.hpp:158-160 | prepends `d` |
| DoublyCircularLists.DoublyCircularList.Insert | Lists/DoublyCircularList/doubly_circular_list.hpp:163-189 | throws exactly when `index > size`; otherwise, whichever direction the walk takes, `d` lands at `index` and the ring stays closed |
| DoublyCircularLists.DoublyCircularList.LinkAfter | Lists/DoublyCircularList/doubly_circular_list.hpp:183-185 | a node linked after ring position `index` becomes element `index` |
| DoublyCircularLists.DoublyCircularList.InsertSorted | Lists/DoublyCircularList/doubly_circular_list.hpp:192-203 | `d` is inserted before the first element not less than it |
| DoublyCircularLists.DoublyCircularList.Pop | Lists/DoublyCircularList/doubly_circular_list.hpp:206-234 | throws "Empty list", then "Invalid index", changing nothing; otherwise returns element `index` and unlinks exactly its node |
| DoublyCircularLists.DoublyCircularList.Unlink | Lists/DoublyCircularList/doubly_circular_list.hpp:222-224 | re-linking a node's neighbours drops element `index`, whose value the node still holds |
| DoublyCircularLists.DoublyCircularList.PopBack | Lists/DoublyCircularList/doubly_circular_list.hpp:237-239 | throws on an empty list; otherwise returns and drops the last element |
| DoublyCircularLists.DoublyCircularList.PopFront | Lists/DoublyCircularList/doubly_circular_list.hpp:242-244 | throws on an empty list; otherwise returns and drops the first element |
| DoublyCircularLists.DoublyCircularList.Remove | Lists/DoublyCircularList/doubly_circular_list.hpp:247-250 | drops the first occurrence of `d` if there is one |
| DoublyCircularLists.DoublyCircularList.Contains | Lists/DoublyCircularList/doubly_circular_list.hpp:258-268 | membership, without throwing on an empty list |
| DoublyCircularLists.DoublyCircularList.At | Lists/DoublyCircularList/doubly_circular_list.hpp:271-306 | throws exactly when `index >= size`; otherwise element `index` |
| DoublyCircularLists.DoublyCircularList.Find | Lists/DoublyCircularList/doubly_circular_list.hpp:309-322 | the first index of `d`, or `size` when absent |
| DoublyCircularLists.DoublyCircularList.WalkForward | Lists/DoublyCircularList/doubly_circular_list.hpp:173-177 | `k` steps of `next` from the sentinel reach ring position `k` |
| DoublyCircularLists.DoublyCircularList.WalkBackward | Lists/DoublyCircularList/doubly_circular_list.hpp:178-181 | `k` steps of `prev` from the sentinel reach ring position `size+1-k` |
| DoublyCircularLists.DoublyCircularList.Empty | Lists/DoublyCircularList/doubly_circular_list.hpp:253-255 | true exactly when the list holds no element |
| DoublyCircularLists.DoublyCircularList.Size | Lists/DoublyCircularList/doubly_circular_list.hpp:325-327 | the number of elements |
| CircularLists.Node.constructor | Lists/CircularList/circular_list.hpp:74-77 | `Node(data, next)` sets both fields |
| CircularLists.Node.Sentinel | Lists/CircularList/circular_list.hpp:66-68 | `Node()`: the sentinel holds 0 and links to nothing |
| CircularLists.LinkedInsertAt | Lists/CircularList/circular_list.hpp:155-172 | a node spliced after its predecessor and pointing at its successor leaves the list linked |
| CircularLists.LinkedRemoveAt | Lists/CircularList/circular_list.hpp:213-230 | a predecessor re-pointed past an unlinked node leaves the list linked |
| CircularLists.StoresInsertAt | Lists/CircularList/circular_list.hpp:155-172 | inserting a node and its element at the same index keeps each node holding its element |
| CircularLists.StoresRemoveAt | Lists/CircularList/circular_list.hpp:213-230 | removing a node and its element at the same index keeps each node holding its element |
| CircularLists.CircularList.constructor | Lists/CircularList/circular_list.hpp:121-123 | a new list is empty: a sentinel linked to nothing |
| CircularLists.CircularList.Ring | Lists/CircularList/circular_list.hpp:155-172 | position 0 is the sentinel and position `j` the node of element `j-1` |
| CircularLists.CircularList.Clear | Lists/CircularList/circular_list.hpp:132-142 | the list is empty, the sentinel is kept and `sentinel->next` is null |
| CircularLists.CircularList.PushBack | Lists/CircularList/circular_list.hpp:145-147 | appends `d` |
| CircularLists.CircularList.PushFront | Lists/CircularList/circular_list.hpp:150-152 | prepends `d` |
| CircularLists.CircularList.Insert | Lists/CircularList/circular_list.hpp:155-172 | throws exactly when `index > size`; otherwise `d` becomes element `index` and the rest keeps its order |
| CircularLists.CircularList.LinkFirst | Lists/CircularList/circular_list.hpp:159-160 | a node linked after the sentinel becomes element 0 |
| CircularLists.CircularList.LinkAfter | Lists/CircularList/circular_list.hpp:161-168 | a node linked after ring position `index` becomes element `index` |
| CircularLists.CircularList.InsertSorted | Lists/CircularList/circular_list.hpp:175-186 | `d` is inserted before the first element not less than it |
| CircularLists.CircularList.At | Lists/CircularList/circular_list.hpp:189-210 | throws exactly when `index >= size`; otherwise element `index` |
| CircularLists.CircularList.Pop | Lists/CircularList/circular_list.hpp:213-230 | throws "Empty list", then "Invalid index", changing nothing; otherwise returns element `index` and removes exactly it |
| CircularLists.CircularList.Unlink | Lists/CircularList/circular_list.hpp:223-225 | re-pointing the predecessor past a node drops element `index` |
| CircularLists.CircularList.PopBack | Lists/CircularList/circular_list.hpp:233-235 | throws on an empty list; otherwise returns and drops the last element |
| CircularLists.CircularList.PopFront | Lists/CircularList/circular_list.hpp:238-240 | throws on an empty list; otherwise returns and drops the first element |
| CircularLists.CircularList.Remove | Lists/CircularList/circular_list.hpp:243-246 | drops the first occurrence of `d` if there is one |
| CircularLists.CircularList.Contains | Lists/CircularList/circular_list.hpp:254-264 | membership |
| CircularLists.CircularList.Find | Lists/CircularList/circular_list.hpp:267-280 | the first index of `d`, or `size` when absent |
| CircularLists.CircularList.End | Lists/CircularList/circular_list.hpp:104-110 | the node of the last element, or the sentinel when the list is empty |
| CircularLists.CircularList.Empty | Lists/CircularList/circular_list.hpp:249-251 | true exactly when the list holds no element |
| CircularLists.CircularList.Size | Lists/CircularList/circular_list.hpp:283-285 | the number of elements |
| LinkedStacks.Node.constructor | Stacks/LinkedStack/linked_stack.hpp:43-46 | `Node(data, next)` sets both fields |
| LinkedStacks.LinkedStack.constructor | Stacks/LinkedStack/linked_stack.hpp:80-82 | a new stack is empty with a null `top_` |
| LinkedStacks.LinkedStack.Clear | Stacks/LinkedStack/linked_stack.hpp:90-98 | the stack is empty; `top_` still points where it did and is never read again while empty |
| LinkedStacks.LinkedStack.Push | Stacks/LinkedStack/linked_stack.hpp:101-104 | `d` becomes the top, above the old contents |
| LinkedStacks.LinkedStack.Pop | Stacks/LinkedStack/linked_stack.hpp:107-119 | throws on an empty stack; otherwise returns the most recently pushed element and removes it; popping the last element nulls `top_` |
| LinkedStacks.LinkedStack.Top | Stacks/LinkedStack/linked_stack.hpp:122-127 | throws on an empty stack; otherwise the top element, with nothing changed |
| LinkedStacks.LinkedStack.Empty | Stacks/LinkedStack/linked_stack.hpp:130-132 | true exactly when the stack holds nothing |
| LinkedStacks.LinkedStack.Size | Stacks/LinkedStack/linked_stack.hpp:135-137 | the number of stacked elements |
| LinkedStacks.PushThenPop | Stacks/LinkedStack/linked_stack.hpp:101-119 | `push(x)` then `pop()` returns `x` and restores the contents |
| ArrayQueues.ArrayQueue.constructor | Queues/ArrayQueue/array_queue.hpp:61-65 | a new queue is empty with capacity `DEFAULT_SIZE` = 10 |
| ArrayQueues.ArrayQueue.WithCapacity | Queues/ArrayQueue/array_queue.hpp:68-72 | a new queue is empty with the given capacity |
| ArrayQueues.ArrayQueue.Enqueue | Queues/ArrayQueue/array_queue.hpp:80-85 | throws "Full queue!" exactly when the queue is full, changing nothing; otherwise appends `d` |
| ArrayQueues.ArrayQueue.Dequeue | Queues/ArrayQueue/array_queue.hpp:88-96 | throws "Empty queue!" on an empty queue; otherwise returns the oldest element and keeps the rest in order |
| ArrayQueues.ArrayQueue.MoveElements | Queues/ArrayQueue/array_queue.hpp:132-136 | shifts the first `size` slots down by one, reading only below the old size; the slots above are untouched |
| ArrayQueues.ArrayQueue.Back | Queues/ArrayQueue/array_queue.hpp:99-104 | throws on an empty queue; otherwise the most recently enqueued element |
| ArrayQueues.ArrayQueue.Clear | Queues/ArrayQueue/array_queue.hpp:107-109 | the queue is empty and keeps its array and capacity |
| ArrayQueues.ArrayQueue.Size | Queues/ArrayQueue/array_queue.hpp:112-114 | the number of queued elements |
| ArrayQueues.ArrayQueue.MaxSize | Queues/ArrayQueue/array_queue.hpp:117-119 | the capacity, the length of the array |
| ArrayQueues.ArrayQueue.Empty | Queues/ArrayQueue/array_queue.hpp:122-124 | true exactly when the queue holds nothing |
| ArrayQueues.ArrayQueue.Full | Queues/ArrayQueue/array_queue.hpp:127-129 | true exactly when every slot is used |
| ArrayQueues.FirstInFirstOut | Queues/ArrayQueue/array_queue.hpp:80-96 | two enqueues then two dequeues return the two elements in the order they came and leave the queue empty |
| ArrayStacks.ArrayStack.constructor | Stacks/ArrayStack/array_stack.hpp:58-62 | a new stack is empty with capacity `DEFAULT_SIZE` = 10 |
| ArrayStacks.ArrayStack.WithCapacity | Stacks/ArrayStack/array_stack.hpp:65-69 | a new stack is empty with the given capacity, at most 2^31 since `top_` is an `int` |
| ArrayStacks.ArrayStack.Push | Stacks/ArrayStack/array_stack.hpp:77-82 | throws "Full stack!" exactly when full, changing nothing; otherwise `d` is stored at `++top_` and becomes the top |
| ArrayStacks.ArrayStack.Pop | Stacks/ArrayStack/array_stack.hpp:85-90 | throws "Empty stack!" on an empty stack; otherwise returns `contents[top_]` and removes it |
| ArrayStacks.ArrayStack.Top | Stacks/ArrayStack/array_stack.hpp:93-98 | throws on an empty stack; otherwise the top element, with nothing changed |
| ArrayStacks.ArrayStack.Clear | Stacks/ArrayStack/array_stack.hpp:101-103 | `top_` is -1 again: the stack is empty and keeps its array |
| ArrayStacks.ArrayStack.Size | Stacks/ArrayStack/array_stack.hpp:106-108 | `top_ + 1`, the number of stacked elements |
| ArrayStacks.ArrayStack.MaxSize | Stacks/ArrayStack/array_stack.hpp:111-113 | the capacity, the length of the array |
| ArrayStacks.ArrayStack.Empty | Stacks/ArrayStack/array_stack.hpp:116-118 | `top_ == -1`, exactly when nothing is stacked |
| ArrayStacks.ArrayStack.Full | Stacks/ArrayStack/array_stack.hpp:121-123 | the `std::size_t` comparison of `top_` with `max_size_ - 1` holds exactly when there is no free slot, capacity 0 included |
| BinaryTrees.Tree.Insert | Trees/BinaryTree/binary_tree.hpp:49-61 | `Node::insert` keeps the node's key and adds `d` to the key set |
| BinaryTrees.Tree.Contains | Trees/BinaryTree/binary_tree.hpp:92-103 | `Node::contains` is true only for a stored key |
| BinaryTrees.Tree.Minimum | Trees/BinaryTree/binary_tree.hpp:129-134 | `minimun` returns a stored key |
| BinaryTrees.Tree.Remove | Trees/BinaryTree/binary_tree.hpp:63-90 | `Node::remove` returns false exactly for a leaf, which it leaves unchanged; the node's new value is never empty and holds no new key |
| BinaryTrees.Tree.Stop | Trees/BinaryTree/binary_tree.hpp:63-72 | the stored key where the walk of `remove` stops |
| BinaryTrees.ContainsComplete | Trees/BinaryTree/binary_tree.hpp:92-103 | on an ordered tree `contains` finds every stored key |
| BinaryTrees.ContainsIff | Trees/BinaryTree/binary_tree.hpp:92-103 | on an ordered tree `contains(k)` is true exactly when `k` is stored |
| BinaryTrees.InsertAddsOneNode | Trees/BinaryTree/binary_tree.hpp:49-61 | `insert` adds exactly one node, holding `d` |
| BinaryTrees.InsertKeepsOrder | Trees/BinaryTree/binary_tree.hpp:49-61 | `insert` keeps left keys below and right keys at or above every node |
| BinaryTrees.InsertKeepsStrictOrder | Trees/BinaryTree/binary_tree.hpp:49-61 | inserting an absent key keeps a tree with distinct ordered keys so |
| BinaryTrees.MinimumIsLeast | Trees/BinaryTree/binary_tree.hpp:129-134 | on an ordered tree `minimun` is the least key |
| BinaryTrees.MinimumIsFirst | Trees/BinaryTree/binary_tree.hpp:113-134 | `minimun` is the first key `in_order` emits, the leftmost |
| BinaryTrees.TraversalsEmitEachNode | Trees/BinaryTree/binary_tree.hpp:105-127 | each traversal emits every node's key exactly once |
| BinaryTrees.InOrderKeys | Trees/BinaryTree/binary_tree.hpp:113-119 | every key `in_order` emits is stored in the tree |
| BinaryTrees.InOrderSorted | Trees/BinaryTree/binary_tree.hpp:113-119 | `in_order` of an ordered tree is non-decreasing |
| BinaryTrees.StopFindsKey | Trees/BinaryTree/binary_tree.hpp:63-72 | on an ordered tree the walk of `remove(d)` stops at `d` when `d` is stored |
| BinaryTrees.RemoveTakesOutStop | Trees/BinaryTree/binary_tree.hpp:63-90 | on a tree with distinct ordered keys `remove` takes out exactly the key where its walk stops: `d` when stored, another key when not |
| BinaryTrees.StrictImpliesOrdered | Trees/BinaryTree/binary_tree.hpp:49-61 | distinct ordered keys are in particular ordered |
| BinaryTrees.PromotedLeafIsKept | Trees/BinaryTree/binary_tree.hpp:74-83 | where the walk stops, a leaf child that supplies the promoted key answers false, the promotion ignores it, and the leaf stays beside the node that now holds its key |
| BinaryTrees.PromotedLeafStays | Trees/BinaryTree/binary_tree.hpp:63-90 | in any tree whose walk ends at a node promoting a leaf's key, `Node::remove` detaches no node: the key where the walk stops is replaced by the promoted key, which is then held once more, and the number of keys is unchanged |
| BinaryTrees.PromotedLeafExample | Trees/BinaryTree/binary_tree.hpp:78-80 | on one tree: removing the root copies its right leaf's key into it, and the tree holds that key twice |
| BinaryTrees.PromotionBreaksOrder | Trees/BinaryTree/binary_tree.hpp:78-80 | promoting a child's own key can break the search order |
| BinaryTrees.PreOrderInto | Trees/BinaryTree/binary_tree.hpp:105-111 | appends the keys in root-left-right order |
| BinaryTrees.InOrderInto | Trees/BinaryTree/binary_tree.hpp:113-119 | appends the keys in left-root-right order |
| BinaryTrees.PostOrderInto | Trees/BinaryTree/binary_tree.hpp:121-127 | appends the keys in left-right-root order |
| BinaryTrees.RemoveFromRoot | Trees/BinaryTree/binary_tree.hpp:183-215 | `BinaryTree::remove`: an absent key changes nothing and keeps `size_`; the root key with at most one child is replaced by that child (or null) with one decrement; with two children the root takes the minimum of the right subtree |
| BinaryTrees.RootWithTwoChildrenDropsTwo | Trees/BinaryTree/binary_tree.hpp:200-204 | on an ordered tree, removing a root with two children moves the right minimum into the root and decrements `size_` twice, counting the nested `remove` |
| BinaryTrees.RemoveBelowRoot | Trees/BinaryTree/binary_tree.hpp:206-213 | removing a stored key below the root takes exactly that key out, unless the child it goes to is a leaf, whose ignored `false` leaves the tree as it was; `size_` drops by one either way |
| BinaryTrees.IgnoredLeafStays | Trees/BinaryTree/binary_tree.hpp:206-213 | a key in a childless child of the root stays while `size_` drops |
| BinaryTrees.PromotedRootThenLoops | Trees/BinaryTree/binary_tree.hpp:200-204 | a root whose right child is a leaf ends up holding the promoted key twice, and removing that key again is undefined (it would recurse for ever) |
| BinaryTrees.BinaryTree.constructor | Trees/BinaryTree/binary_tree.hpp:138-139 | a new tree is empty |
| BinaryTrees.BinaryTree.Insert | Trees/BinaryTree/binary_tree.hpp:163-180 | counts every call; an empty tree gets a root leaf, a present key changes no node, an absent key is inserted by `Node::insert`'s descent, and order is kept with `d` added to the keys |
| BinaryTrees.BinaryTree.Remove | Trees/BinaryTree/binary_tree.hpp:183-215 | the new root and `size_` are those of `RemoveFromRoot`, whose nested call on the promoted key is a recursive call of the method |
| BinaryTrees.BinaryTree.Contains | Trees/BinaryTree/binary_tree.hpp:218-229 | the root-level test with `<=` agrees with `Node::contains`, and on an ordered tree is exact membership |
| BinaryTrees.BinaryTree.Empty | Trees/BinaryTree/binary_tree.hpp:232-234 | tests the call counter `size_` |
| BinaryTrees.FiveThenThree | Trees/BinaryTree/binary_tree.hpp:163-180 | inserting 5 and then 3 into a new tree gives a root 5 with the leaf 3 on its left, and `size_` 2 |
| BinaryTrees.EmptyWithNodes | Trees/BinaryTree/binary_tree.hpp:183-215 | after inserting 5 and 3 and removing 3 twice, `empty()` is true while both nodes remain |
| BinaryTrees.NodesGoneNotEmpty | Trees/BinaryTree/binary_tree.hpp:163-215 | after inserting 5 twice and removing it once, the tree has no node while `empty()` is false |
| BinaryTrees.BinaryTree.Size | Trees/BinaryTree/binary_tree.hpp:237-239 | the call counter, a `std::size_t` |
| BinaryTrees.BinaryTree.PreOrder | Trees/BinaryTree/binary_tree.hpp:242-252 | the keys in root-left-right order, each node once |
| BinaryTrees.BinaryTree.InOrder | Trees/BinaryTree/binary_tree.hpp:255-265 | the keys in left-root-right order, each node once, non-decreasing on an ordered tree |
| BinaryTrees.BinaryTree.PostOrder | Trees/BinaryTree/binary_tree.hpp:268-278 | the keys in left-right-root order, each node once |
| AVLTrees.Tree.Erase | Trees/AVL_Tree/avl_tree.hpp:40-46 | forgetting heights gives a node exactly for a node, with the same root key; the body keeps each child as the erased child |
| AVLTrees.Tree.UpdateHeight | Trees/AVL_Tree/avl_tree.hpp:147-157 | `updateHeight` changes only the height, and gives 0 when the children have height 0 |
| AVLTrees.Tree.Fb | Trees/AVL_Tree/avl_tree.hpp:231-240 | `fb` is 0 whenever the children have height 0 |
| AVLTrees.Tree.Insert | Trees/AVL_Tree/avl_tree.hpp:52-82 | `Node::insert` keeps every height 0, leaves a balance factor of 0 so the rotation guard `fb * fb > 1` is false, and erases to the unbalanced tree's insert |
| AVLTrees.Tree.Remove | Trees/AVL_Tree/avl_tree.hpp:84-132 | `Node::remove` keeps every height 0, leaves a balance factor of 0 so the rebalancing loop's guard is false, and agrees with the unbalanced tree's remove in its result and new node |
| AVLTrees.Tree.Contains | Trees/AVL_Tree/avl_tree.hpp:134-145 | `Node::contains` agrees with the unbalanced tree's |
| AVLTrees.Tree.Minimum | Trees/AVL_Tree/avl_tree.hpp:215-220 | `minimun` agrees with the unbalanced tree's |
| AVLTrees.Max | Trees/AVL_Tree/avl_tree.hpp:223-228 | `max` is the larger of its two arguments |
| AVLTrees.AbsentKeyRemovesAnother | Trees/AVL_Tree/avl_tree.hpp:84-108 | on one tree: removing an absent key takes out the key where the walk stops, and the promoted leaf is kept |
| AVLTrees.PromotedLeafStays | Trees/AVL_Tree/avl_tree.hpp:84-108 | in any tree whose walk ends at a node promoting a leaf's key, `Node::remove` detaches no node: the key where the walk stops is replaced by the promoted key, and the number of keys is unchanged |
| AVLTrees.RemovedKeys | Trees/AVL_Tree/avl_tree.hpp:307-332 | on distinct ordered keys `AVLTree::remove` leaves all keys but the one where its walk stops, `d` when stored; removing the sole key leaves none |
| AVLTrees.PreOrderInto | Trees/AVL_Tree/avl_tree.hpp:189-195 | appends the keys in root-left-right order |
| AVLTrees.InOrderInto | Trees/AVL_Tree/avl_tree.hpp:197-203 | appends the keys in left-root-right order |
| AVLTrees.PostOrderInto | Trees/AVL_Tree/avl_tree.hpp:205-211 | appends the keys in left-right-root order |
| AVLTrees.AVLTree.constructor | Trees/AVL_Tree/avl_tree.hpp:243-244 | a new tree is empty |
| AVLTrees.AVLTree.Insert | Trees/AVL_Tree/avl_tree.hpp:268-304 | counts every call; an empty tree gets a root leaf, a present key changes nothing, an absent key is inserted exactly as `Node::insert` would; order is kept with `d` added to the keys, every height stays 0 and the root's balance factor is 0 |
| AVLTrees.AVLTree.Remove | Trees/AVL_Tree/avl_tree.hpp:307-359 | without a membership test: counts every call, removes below the root as `Node::remove` would and deletes a leaf root; the root's balance factor is 0; on distinct ordered keys it takes out the key where the walk stops, `d` itself when stored |
| AVLTrees.AVLTree.Contains | Trees/AVL_Tree/avl_tree.hpp:362-373 | the root-level test with `<=` agrees with `Node::contains`, and on an ordered tree is exact membership |
| AVLTrees.AVLTree.Empty | Trees/AVL_Tree/avl_tree.hpp:376-378 | tests the call counter `size_` |
| AVLTrees.EmptyWithNodes | Trees/AVL_Tree/avl_tree.hpp:268-359 | after inserting 5 and 3 and removing the absent 7 and then 3, `empty()` is true while two nodes remain |
| AVLTrees.NodesGoneNotEmpty | Trees/AVL_Tree/avl_tree.hpp:268-359 | after inserting 5 twice and removing it once, the tree has no node while `empty()` is false |
| AVLTrees.AVLTree.Size | Trees/AVL_Tree/avl_tree.hpp:381-383 | the call counter, a `std::size_t` |
| AVLTrees.AVLTree.PreOrder | Trees/AVL_Tree/avl_tree.hpp:386-396 | the keys in root-left-right order, each node once |
| AVLTrees.AVLTree.InOrder | Trees/AVL_Tree/avl_tree.hpp:399-409 | the keys in left-root-right order, each node once, non-decreasing on an ordered tree |
| AVLTrees.AVLTree.PostOrder | Trees/AVL_Tree/avl_tree.hpp:412-422 | the keys in left-right-root order, each node once |

## Left out

- Element type: the lists and trees hold `int` (their operations need `<`); the stacks and the queue are generic.
- List, linked-stack and queue sizes are unbounded (`nat`). The one place a `std::size_t` wraps, `pop_back`'s `size_ - 1` on an empty list, is modelled with `SizeT.Wrap`, and the emptiness check rejects it first.
- 32-bit loop counters are not modelled. The loops in `clear`, `insert`, `pop`, `at` and `find` of the three lists, `LinkedStack::clear` and `ArrayQueue::move_elements` count with `unsigned int` (e.g. doubly_linked_list.hpp:141 and 203, circular_list.hpp:134, array_queue.hpp:133, linked_stack.hpp:92), so they never end once a size reaches 2^32. `find` in the two circular lists counts with `int` (circular_list.hpp:272, doubly_circular_list.hpp:314), and so does the constant overload of `DoublyLinkedList::at` (doubly_linked_list.hpp:327 and 331, where `int i = size_ - 1` also truncates). These overflow past 2^31 elements. The model's loops count with `nat`, so its contracts hold for every size, the sizes at which the source misbehaves included.
- ArrayStacks.ArrayStack.WithCapacity: requires a capacity of at most 2^31 (`MaxCapacity`), because `top_` is an `int`. With a larger capacity, push number 2^31 + 1 overflows `++top_`, which is undefined behaviour, so the model does not cover those capacities.
- Tree nodes are values: no aliasing and no in-place update of a node is modelled, since every node has exactly one owner.
- AVLTrees.Tree.Insert: requires every height to be 0 (the class invariant it preserves), because the rotations it would otherwise need are not modelled.
- AVLTrees.Tree.Remove: requires every height to be 0, for the same reason.
- Rotations (`simpleLeft`, `simpleRight`, `doubleLeft`, `doubleRight`): unreachable. The model proves the guard `fb * fb > 1` false instead of modelling their pointer surgery.
- AVLTrees.Tree.Fb: subtracts heights as integers. The source subtracts `std::size_t` values and converts the difference to `int`; the two agree because every height is 0.
- Traversal results: `ArrayList` is not part of this model. A traversal returns a `seq` built by appending, without the list's capacity of `size_` slots.
- Destructors and `delete`: memory reclamation is not modelled. This includes the tree destructors' loop, which removes a leaf that is never detached.
- `BinaryTree`'s uninitialised `root_` and `size_`: the model's constructor starts the tree empty.
- BinaryTrees.BinaryTree.Remove: requires `Removable`, like BinaryTrees.RemoveFromRoot. This excludes the null dereference that follows `contains` on a broken order, and the nested `remove` that would recurse for ever.
- BinaryTrees.RemoveFromRoot: requires `Removable`, for the same reason as BinaryTrees.BinaryTree.Remove, whose new state it defines.
- AVL and binary `insert`, `remove`, `contains` and traversals require a root whenever the source dereferences `root_`. `size_` can be non-zero with a null root, so callers of the source can violate this.
- The const and non-const `at` overloads of the two circular lists are the same code and are modelled once. The `DoublyLinkedList` overloads differ only in their loop counters' width (see the 32-bit line above), so the model's `At` stands for both.
- `T&` results of `at`, `top` and `back` are returned by value; writing through the reference is not modelled.
- List nodes are not stated to be fresh, and nodes unlinked by `pop` are not stated to be freed.
- The doubly linked nodes' `Node(data)` and `Node(data, next)` are written as `Node(data, null, null)` and `Node(data, null, next)`: the links they leave unset default to null.
- Unused constructors: `CircularList::Node(const T&)` and `LinkedStack::Node(const T&)`.
- `ArrayList_String` and `ArrayList`: not part of this model.

# cpp-cosplays containers in Dafny

This project models the single-threaded containers and value holders of
cpp-cosplays, a set of C++ re-implementations of standard-library classes.
It proves their behaviour against abstract values: a sequence for the
vector, the deque and the two linked lists, a set of keys for the AVL
tree, an option for Optional and Any, and reference counts for the smart
pointers.

- `vector.dfy` (module `VectorModel`): `Vector`, a heap buffer with `size`
  and `capacity` that doubles when PushBack finds it full.
- `deque.dfy` (module `DequeModel`): `Deque`, an array of pointers to blocks
  of 128 ints. The head and tail block indices and the in-block indices are
  the source's fields. The scalar part of the state is the datatype
  `Layout`, and each Push/Pop step on it is a function. The element at index
  i sits at absolute position `HeadOf + i`, in block `p / 128` at offset
  `p % 128`. The ghost `Slot(i)` is that block and offset, which is what the
  address `&a[i]` denotes. The pushes, pops and reallocation leave every
  surviving element in its slot.
- `ring.dfy` (module `RingModel`): the `Link` node shared by both lists (the
  owning list's BaseNode/Node and the intrusive list's ListHook), and the
  ring invariant `Ring(root, nodes)`: each node's next and prev are its
  neighbours, wrapping round through the root.
- `list.dfy` (module `ListModel`): `List<T>`, the owning list with a sentinel
  root, a `size` field and a ghost sequence of its nodes.
- `intrusive_list.dfy` (module `IntrusiveListModel`): `List<T>`, the intrusive
  list whose elements are hooks. It never owns, copies or frees an element.
- `optional.dfy` (module `OptionalModel`): `Optional<T>`. The pair
  (`has_value_`, `buf_`) is one field `slot: Option<T>`, and every read goes
  through `Get`, which yields the value or `Thrown`.
- `any.dfy` (module `AnyModel`): `Any<V>` owning an `Inner<V>`. The run-time
  type information is an explicit type tag.
- `smart_ptr.dfy` (module `SmartPtrModel`): `SharedPtr`, `WeakPtr` and the
  shared `LinkCounter`. The counter carries ghost multisets of its owners
  and observers, and `Counts()` says that `strong` and `weak` are their
  sizes.
- `mpmc.dfy` (module `MpmcModel`): `MPMCBoundedQueue<T>`, a ring of slots
  with epochs and head/tail cursors, called one operation at a time. The
  ghost predicate `WindowOk` is the epoch invariant. `Contents()` is the
  window of queued values.
- `avl_set.dfy` (module `AvlSet`):
  - The tree is a value, `Tree = Leaf | Node(left, key, right, balance)`.
  - `AvlTree` (root, cached leftmost node, size) and `Set` (a handle on its
    own `AvlTree`) are classes whose fields the operations reassign.
  - Iterators are `Cursor`s: a key, the sentinel `End`, or `Null`.
  - Insertion and erasure rebuild the tree along the search path. `Settle`
    is one pass of the source's `Rebalance` loop, with the source's
    rotation balance formulas.
- `modular.dfy` (module `Modular`) and `wrappers.dfy` (module `Wrappers`)
  are helpers: Euclidean-division facts and the `Option` type.

## Model

| member | source | states |
|---|---|---|
| VectorModel.CopyPrefix | vector/vector.h:146-147 | copies the first n elements into the new buffer and leaves the rest of it alone |
| VectorModel.GrownCapacity | vector/vector.h:131 | the capacity PushBack asks for is larger than the old one: 1 from 0, otherwise twice the old one |
| VectorModel.Vector.constructor | vector/vector.h:71-72 | an empty vector with capacity 0 |
| VectorModel.Vector.OfSize | vector/vector.h:73-77 | n zeros, capacity n |
| VectorModel.Vector.OfList | vector/vector.h:78-81 | the listed values in order, capacity equal to their number |
| VectorModel.Vector.Copy | vector/vector.h:89-92 | the same elements in a fresh buffer whose capacity is the source's size |
| VectorModel.Vector.Move | vector/vector.h:93-98 | takes the source's buffer, size and capacity; the source is left empty with capacity 0 |
| VectorModel.Vector.Swap | vector/vector.h:118-122 | all three fields are exchanged |
| VectorModel.Vector.CopyAssign | vector/vector.h:100-104 | the contents become the source's, and the capacity becomes the source's size |
| VectorModel.Vector.MoveAssign | vector/vector.h:105-109 | takes the source's buffer and leaves the source empty; moving a vector into itself changes nothing |
| VectorModel.Vector.Get | vector/vector.h:111-116 | operator[] reads element `index` of the contents |
| VectorModel.Vector.Set | vector/vector.h:111-113 | writing through operator[] changes that element only |
| VectorModel.Vector.Size | vector/vector.h:123-125 | the number of elements the vector holds, never more than the capacity |
| VectorModel.Vector.Capacity | vector/vector.h:126-128 | the length of the allocated buffer, at least the size |
| VectorModel.Vector.Reserve | vector/vector.h:144-152 | reallocates only when the request exceeds the capacity, and keeps the contents; otherwise nothing changes |
| VectorModel.Vector.PushBack | vector/vector.h:129-137 | appends the value and keeps the earlier elements; the capacity grows to GrownCapacity exactly when the vector was full |
| VectorModel.Vector.PopBack | vector/vector.h:138-140 | drops the last element, or does nothing on an empty vector; the capacity stays |
| VectorModel.Vector.Clear | vector/vector.h:141-143 | empties the vector and keeps buffer and capacity |
| OptionalModel.Optional.constructor | optional/optional.h:10 | a default Optional holds no value |
| OptionalModel.Optional.Of | optional/optional.h:12-20 | holds the given value |
| OptionalModel.Optional.Copy | optional/optional.h:22-27 | same HasValue and an equal value as the source |
| OptionalModel.Optional.Move | optional/optional.h:29-36 | takes the value; the source keeps its HasValue and holds a moved-from value |
| OptionalModel.Optional.CopyAssign | optional/optional.h:45-63 | mirrors the source, emptied by an empty source; self-assignment changes nothing |
| OptionalModel.Optional.MoveAssign | optional/optional.h:65-85 | takes the source's value without changing the source's HasValue; self-assignment changes nothing |
| OptionalModel.Optional.HasValue | optional/optional.h:119-121 | a value is held exactly when reading it does not throw |
| OptionalModel.Optional.Get | optional/optional.h:87-117 | Value, operator* and operator-> yield the value, and throw exactly when the Optional is empty |
| OptionalModel.Optional.SetThroughValue | optional/optional.h:107-109 | writing through Value() replaces a held value, and throws without change on an empty Optional |
| OptionalModel.Optional.TakeValue | optional/optional.h:115-117 | moving out through Value() yields the old value (or throws) and keeps HasValue |
| OptionalModel.Optional.Reset | optional/optional.h:123-128 | afterwards the Optional is empty |
| AnyModel.Inner.constructor | any/any.h:86-89 | stores the value under its type |
| AnyModel.Inner.Clone | any/any.h:90-92 | a new holder with the same type and value |
| AnyModel.Any.constructor | any/any.h:18 | a default Any is empty |
| AnyModel.Any.Of | any/any.h:22-24 | not empty, and reading it as the stored type yields the value |
| AnyModel.Any.Copy | any/any.h:26-30 | an independent clone: empty exactly when the source is, and every cast gives the same outcome |
| AnyModel.Any.Move | any/any.h:31-33 | takes the source's holder; the source becomes empty |
| AnyModel.Any.Swap | any/any.h:63-65 | exchanges the holders; a self-swap changes nothing |
| AnyModel.Any.CopyAssign | any/any.h:34-39 | every cast gives what it gave on the source; self-assignment changes nothing |
| AnyModel.Any.MoveAssign | any/any.h:40-43 | takes the source's holder and leaves the source empty; moving into itself changes nothing |
| AnyModel.Any.AssignValue | any/any.h:44-48 | the held value and its type are both replaced; every other type now fails to cast |
| AnyModel.Any.Clear | any/any.h:60-62 | afterwards the Any is empty |
| AnyModel.Any.Empty | any/any.h:56-58 | empty exactly when every cast fails with bad_cast |
| AnyModel.Any.CastAsWritten | any/any.h:109-117 | the cast as written: a null dereference on an empty Any, otherwise the outcome of GetValue |
| AnyModel.Any.GetValue | any/any.h:67-70 | the value exactly when the stored type is the requested one; bad_cast otherwise, the empty Any included |
| AnyModel.EmptyCastDereferencesNull | any/any.h:116 | on an empty Any the code dereferences null where bad_cast is expected |
| SmartPtrModel.Managed.constructor | smart-ptrs/smart_ptr.h:17 | the managed string |
| SmartPtrModel.LinkCounter.constructor | smart-ptrs/smart_ptr.h:17 | a new counter is {1, 0} |
| SmartPtrModel.SharedPtr.constructor | smart-ptrs/smart_ptr.h:16 | null, no counter |
| SmartPtrModel.SharedPtr.Own | smart-ptrs/smart_ptr.h:17-18 | owns the pointer with a new counter {1, 0} whose one owner is this pointer |
| SmartPtrModel.SharedPtr.Copy | smart-ptrs/smart_ptr.h:19-23 | shares object and counter; strong + 1, weak unchanged |
| SmartPtrModel.SharedPtr.Move | smart-ptrs/smart_ptr.h:24-27 | takes over the ownership; the source is nulled and the counts do not change |
| SmartPtrModel.SharedPtr.FromWeak | smart-ptrs/smart_ptr.h:133-141 | empty when the weak pointer has expired, leaving its counter untouched; otherwise shares its object with strong + 1 |
| SmartPtrModel.SharedPtr.Release | smart-ptrs/smart_ptr.h:29-41 | strong - 1; at 0 the object is deleted, and the counter too when weak is 0 |
| SmartPtrModel.SharedPtr.SwapWith | smart-ptrs/smart_ptr.h:44-45 | the two pointers exchange fields, and the counts are unchanged |
| SmartPtrModel.SharedPtr.Assign | smart-ptrs/smart_ptr.h:43-47 | the by-value parameter's ownership moves here, and what this held is released |
| SmartPtrModel.SharedPtr.CopyAssign | smart-ptrs/smart_ptr.h:43-47 | from an lvalue: this takes the source's object and counter; with two counters the source's gains this as an owner (strong + 1) and the old one loses it (strong - 1, counts still consistent); a shared counter, self-assignment included, keeps its owners and counts; neither counter's weak side changes; the old counter is released as the destructor does |
| SmartPtrModel.SharedPtr.MoveAssign | smart-ptrs/smart_ptr.h:43-47 | from an rvalue: the source is nulled and its ownership passes to this, its counter's counts unchanged; the old counter loses this as an owner (strong - 1, counts still consistent); with a shared counter only the source's ownership goes, and moving into itself changes nothing; neither counter's weak side changes |
| SmartPtrModel.SharedPtr.Reset | smart-ptrs/smart_ptr.h:60-64 | releases the old ownership as the destructor does (the same outcome: kept, object deleted, or object and counter deleted; the old counter's weak side untouched and its counts consistent), then owns the pointer with a new counter {1, 0} |
| SmartPtrModel.SharedPtr.Get | smart-ptrs/smart_ptr.h:56-58 | the object every pointer sharing the counter points to |
| SmartPtrModel.WeakPtr.constructor | smart-ptrs/smart_ptr.h:75 | observes nothing |
| SmartPtrModel.WeakPtr.Copy | smart-ptrs/smart_ptr.h:76-80 | observes the same counter; weak + 1, strong unchanged |
| SmartPtrModel.WeakPtr.Move | smart-ptrs/smart_ptr.h:81-84 | takes over the observation; the source is nulled and the counts do not change |
| SmartPtrModel.WeakPtr.FromShared | smart-ptrs/smart_ptr.h:85-90 | observes the shared pointer's counter; weak + 1 |
| SmartPtrModel.WeakPtr.Release | smart-ptrs/smart_ptr.h:91-100 | weak - 1; the counter is deleted exactly when both counts reach 0 |
| SmartPtrModel.WeakPtr.SwapWith | smart-ptrs/smart_ptr.h:103-104 | the two pointers exchange fields, and the counts are unchanged |
| SmartPtrModel.WeakPtr.Assign | smart-ptrs/smart_ptr.h:102-106 | the by-value parameter's observation moves here, and what this observed is released |
| SmartPtrModel.WeakPtr.CopyAssign | smart-ptrs/smart_ptr.h:102-106 | from an lvalue: this observes the source's counter; with two counters the source's gains this as an observer (weak + 1) and the old one loses it (weak - 1, counts still consistent); a shared counter, self-assignment included, keeps its observers and counts; neither counter's strong side changes; the old counter is deleted exactly as the destructor would delete it |
| SmartPtrModel.WeakPtr.MoveAssign | smart-ptrs/smart_ptr.h:102-106 | from an rvalue: the source is nulled and its observation passes to this, its counter's counts unchanged; the old counter loses this as an observer (weak - 1, counts still consistent); with a shared counter only the source's observation goes, and moving into itself changes nothing; neither counter's strong side changes |
| SmartPtrModel.WeakPtr.IsExpired | smart-ptrs/smart_ptr.h:108-113 | expired exactly when there is no counter or no SharedPtr owns the object any more |
| SmartPtrModel.WeakPtr.Lock | smart-ptrs/smart_ptr.h:115-120 | an empty pointer when expired, the counter left untouched; otherwise a new owner of the object, with strong + 1; the weak count and the observers never change |
| SmartPtrModel.WeakPtr.Reset | smart-ptrs/smart_ptr.h:122-126 | releases the observation as the destructor does (the counter is deleted exactly when this was the last observer of an expired object; the strong side untouched and the counts consistent), then nulls both fields |
| MpmcModel.BitAnd | mpmc-bounded-queue/mpmc.h:31 | the bitwise and is at most either operand |
| MpmcModel.LowMaskIsMod | mpmc-bounded-queue/mpmc.h:20 | masking with size - 1 is reduction modulo size when the size is a power of two |
| MpmcModel.Window | mpmc-bounded-queue/mpmc.h:68-71 | the queued values, head to tail, are tail - head many |
| MpmcModel.TailSlotFreeIffNotFull | mpmc-bounded-queue/mpmc.h:31-34 | on a valid ring the tail's epoch passes Enqueue's test exactly when the queue is not full |
| MpmcModel.EnqueueAppends | mpmc-bounded-queue/mpmc.h:41-42 | storing at the tail and bumping the epoch appends the value and keeps the ring valid |
| MpmcModel.HeadSlotFullIffNotEmpty | mpmc-bounded-queue/mpmc.h:50-53 | on a valid ring the head's epoch passes Dequeue's test exactly when the queue is not empty |
| MpmcModel.DequeueRemovesOldest | mpmc-bounded-queue/mpmc.h:60-61 | taking the head's value and moving its epoch on by size - 1 removes the oldest value and keeps the ring valid |
| MpmcModel.MPMCBoundedQueue.Slot | mpmc-bounded-queue/mpmc.h:31 | the slot of a position is inside the ring, and is the position modulo the size for a power-of-two size |
| MpmcModel.InitialSlots | mpmc-bounded-queue/mpmc.h:22-24 | the constructor's loop: a fresh ring of `size` slots in which slot i has epoch i |
| MpmcModel.InitialWindowOk | mpmc-bounded-queue/mpmc.h:19-25 | the epochs the constructor sets up make an empty window that is valid for a power-of-two size of at least 2 |
| MpmcModel.MPMCBoundedQueue.constructor | mpmc-bounded-queue/mpmc.h:19-25 | slot i has epoch i and head = tail = 0, for any positive size |
| MpmcModel.MPMCBoundedQueue.Checked | mpmc-bounded-queue/mpmc.h:19-25 | for a power-of-two size of at least 2, a valid empty queue; the power of two is the check commented out at line 20, and the lower bound of 2 is what the epoch scheme of lines 32 and 61 needs besides |
| MpmcModel.MPMCBoundedQueue.Enqueue | mpmc-bounded-queue/mpmc.h:27-44 | fails without change when the tail's epoch lags the tail; otherwise stores the value, bumps the epoch and advances the tail; on a valid queue it appends exactly when fewer than size values are queued |
| MpmcModel.MPMCBoundedQueue.Dequeue | mpmc-bounded-queue/mpmc.h:46-63 | fails leaving the out value untouched when the head's epoch is below head + 1; otherwise returns the slot's value, moves its epoch on by size - 1 and advances the head; on a valid queue it returns the oldest value exactly when one is queued |
| MpmcModel.SizeOneOverwrites | mpmc-bounded-queue/mpmc.h:32-61 | with size 1 both enqueues succeed and both dequeues return the second value: the full test at line 32 never fires and the epoch bump at line 61 is 0 |
| MpmcModel.SizeThreeReorders | mpmc-bounded-queue/mpmc.h:20-31 | with size 3 the second enqueue overwrites the first, and the first dequeue returns 2 |
| MpmcModel.SizeTwoIsFifo | mpmc-bounded-queue/test.cpp:27-45 | the sequence of the sequential tests: the outcomes and values the tests expect |
| RingModel.Link.constructor | list/list.h:231-238 | a new node holds the value and is unlinked |
| RingModel.Link.Unlinked | intrusive-list/intrusive_list.h:27 | a new hook has both links null |
| RingModel.Link.Sentinel | list/list.h:116-119 | a new root linked to itself |
| RingModel.Link.IsLinked | intrusive-list/intrusive_list.h:9-11 | a hook is linked when either link is set; Unlink makes it false |
| RingModel.RingIsLinked | intrusive-list/intrusive_list.h:9-11 | every hook of a ring, the root included, is linked |
| RingModel.Link.Unlink | intrusive-list/intrusive_list.h:12-21 | joins the neighbours to each other and nulls both links, so the hook is unlinked; on an unlinked hook nothing changes |
| RingModel.Link.LinkBefore | intrusive-list/intrusive_list.h:35-42 | puts the hook between other.prev and other |
| RingModel.Values | list/list.h:231-233 | the values the nodes hold, in order |
| RingModel.InsertKeepsDistinct | list/list.h:161-176 | linking in a node that is not in the list keeps every node distinct |
| RingModel.RemoveKeepsDistinct | list/list.h:191-209 | removing one node keeps the others distinct, and the removed one is gone |
| RingModel.RingAfterInsert | list/list.h:252-257 | after the four link updates of an insertion, the ring is the old one with the node inserted |
| RingModel.RingAfterRemove | list/list.h:245-250 | after the link updates of an unlink, the ring is the old one without the node |
| ListModel.List.constructor | list/list.h:116-119 | an empty ring |
| ListModel.List.RingIsConsistent | list/list.h:245-257 | for every node of a valid list, next.prev and prev.next are the node itself |
| ListModel.List.LinkAfter | list/list.h:252-257 | splices the node in between target and its successor |
| ListModel.List.Unlink | list/list.h:245-250 | joins the node's neighbours to each other and nulls its links |
| ListModel.List.IsEmpty | list/list.h:154-156 | true exactly when there are no elements, exactly when the root is linked to itself |
| ListModel.List.Size | list/list.h:157-159 | the number of elements from Begin to End |
| ListModel.List.Front | list/list.h:178-183 | the first element |
| ListModel.List.Back | list/list.h:184-189 | the last element |
| ListModel.List.Begin | list/list.h:211-213 | the first node, or the root for an empty list |
| ListModel.List.End | list/list.h:214-216 | End(), the sentinel root; Next from the last node and Prev to it meet there |
| ListModel.List.Next | list/list.h:26-29 | iterator++ moves to the next position, from the last node to the root, and from End round to Begin |
| ListModel.List.Deref | list/list.h:46-48 | iterator* yields the element at the iterator's position |
| ListModel.List.Prev | list/list.h:36-39 | iterator-- moves to the previous position, from the first node to the root, and from End back to the last node |
| ListModel.List.InsertAt | list/list.h:161-176 | a new node is linked in at a position; the ring stays valid |
| ListModel.List.RemoveAt | list/list.h:191-209 | the node at a position is unlinked; the ring stays valid |
| ListModel.List.PushBack | list/list.h:161-168 | appends the value, which Back then returns |
| ListModel.List.PushFront | list/list.h:169-176 | prepends the value, which Front then returns |
| ListModel.List.PopBack | list/list.h:191-196 | removes the last element of a non-empty list |
| ListModel.List.PopFront | list/list.h:197-202 | removes the first element of a non-empty list |
| ListModel.List.Erase | list/list.h:204-209 | removes exactly the element at the iterator and keeps the order of the others |
| ListModel.List.Destroy | list/list.h:131-136 | pops from the back until the list is empty |
| ListModel.List.Copy | list/list.h:120-124 | a fresh list, independent of the source, with the same elements |
| ListModel.List.Move | list/list.h:125-130 | takes over the source's ring; the source gets a fresh empty ring |
| ListModel.List.Swap | list/list.h:240-243 | exchanges roots and sizes |
| ListModel.List.CopyAssign | list/list.h:138-142 | the contents become the source's, in fresh nodes |
| ListModel.List.MoveAssign | list/list.h:143-152 | the source's elements move here and the source is emptied; moving a list into itself empties it |
| ListModel.List.Adopt | list/list.h:145-150 | takes the source's root and size and gives the source a fresh empty ring |
| IntrusiveListModel.List.constructor | intrusive-list/intrusive_list.h:105-108 | the root hook linked to itself |
| IntrusiveListModel.List.IsEmpty | intrusive-list/intrusive_list.h:140-142 | root.next is the root exactly when there are no elements |
| IntrusiveListModel.List.Size | intrusive-list/intrusive_list.h:144-152 | the counting walk returns the number of elements |
| IntrusiveListModel.List.Front | intrusive-list/intrusive_list.h:163-168 | the first element |
| IntrusiveListModel.List.Back | intrusive-list/intrusive_list.h:170-175 | the last element |
| IntrusiveListModel.List.Begin | intrusive-list/intrusive_list.h:188-190 | the first element; it equals End exactly when the list is empty |
| IntrusiveListModel.List.End | intrusive-list/intrusive_list.h:191-193 | End(), the root hook; Begin equals it exactly when the list is empty |
| IntrusiveListModel.List.Next | intrusive-list/intrusive_list.h:67-70 | iterator++ moves to the next position, from the last element to the root, and from End round to Begin |
| IntrusiveListModel.List.Prev | intrusive-list/intrusive_list.h:77-80 | iterator-- moves to the previous position, from the first element to the root, and from End back to the last element |
| IntrusiveListModel.List.LinkAt | intrusive-list/intrusive_list.h:156-161 | links an element in before the one at a position; the ring stays valid |
| IntrusiveListModel.List.PushBack | intrusive-list/intrusive_list.h:156-158 | the element becomes the last one, which Back then returns |
| IntrusiveListModel.List.PushFront | intrusive-list/intrusive_list.h:159-161 | the element becomes the first one, which Front then returns |
| IntrusiveListModel.List.UnlinkElement | intrusive-list/intrusive_list.h:12-21 | unlinking (or destroying) an element takes exactly it out of the list and leaves it unlinked |
| IntrusiveListModel.List.PopBack | intrusive-list/intrusive_list.h:177-181 | nothing on an empty list; otherwise the last element leaves and is unlinked |
| IntrusiveListModel.List.PopFront | intrusive-list/intrusive_list.h:182-186 | nothing on an empty list; otherwise the first element leaves and is unlinked |
| IntrusiveListModel.List.Destroy | intrusive-list/intrusive_list.h:118-124 | every former element ends up unlinked and the root is linked to itself |
| IntrusiveListModel.List.TakeOver | intrusive-list/intrusive_list.h:111-114 | this root takes the other root's place in its ring, and the other root is left linked to itself |
| IntrusiveListModel.List.Move | intrusive-list/intrusive_list.h:110-115 | the new list holds the source's elements; the source is empty |
| IntrusiveListModel.List.MoveAssign | intrusive-list/intrusive_list.h:127-138 | the old elements end up unlinked, the source's elements move here and the source is empty; moving into itself empties the list |
| DequeModel.InitialLayout | deque/deque.h:211-220 | the initial layout is well formed and empty |
| DequeModel.ReallocatedLayoutKeeps | deque/deque.h:222-237 | reallocation keeps the layout well formed and the element count, and shifts head and tail by the same whole number of blocks |
| DequeModel.PushBackLayoutKeeps | deque/deque.h:99-113 | PushBack's index steps keep the layout well formed and add one element |
| DequeModel.PushFrontLayoutKeeps | deque/deque.h:131-145 | PushFront's index steps keep the layout well formed and add one element |
| DequeModel.PopBackLayoutKeeps | deque/deque.h:115-129 | PopBack's index steps keep the layout well formed and remove one element, none from an empty deque |
| DequeModel.PopFrontLayoutKeeps | deque/deque.h:147-161 | PopFront's index steps keep the layout well formed and remove one element, none from an empty deque |
| DequeModel.ReallocatedLayout | deque/deque.h:222-237 | Reallocate's effect on the indices; what it keeps is ReallocatedLayoutKeeps |
| DequeModel.PushBackLayout | deque/deque.h:99-113 | PushBack's index steps; what they keep is PushBackLayoutKeeps |
| DequeModel.PushFrontLayout | deque/deque.h:131-145 | PushFront's index steps; what they keep is PushFrontLayoutKeeps |
| DequeModel.PopBackLayout | deque/deque.h:115-129 | PopBack's index steps; what they keep is PopBackLayoutKeeps |
| DequeModel.PopFrontLayout | deque/deque.h:147-161 | PopFront's index steps; what they keep is PopFrontLayoutKeeps |
| DequeModel.PopBackReleasedAsWritten | deque/deque.h:121-127 | the block pointer PopBack as written reads, unchecked against the array's end; PopBackReadsPastEnd exhibits the read past it |
| DequeModel.PopFrontReleasedAsWritten | deque/deque.h:153-159 | the block pointer PopFront as written reads, unchecked against the array's start; PopFrontReadsBeforeStart exhibits the read before it |
| DequeModel.PopBackReleased | deque/deque.h:121-128 | the block PopBack frees is inside the pointer array, and it is freed whenever the source's pointer is in range |
| DequeModel.PopFrontReleased | deque/deque.h:153-160 | the block PopFront frees is inside the pointer array, and it is freed whenever the source's pointer is in range |
| DequeModel.PopBackReadsPastEnd | deque/deque.h:123 | for Deque{1, 2} after one PopBack, the next PopBack as written reads the pointer one past the array |
| DequeModel.PopFrontReadsBeforeStart | deque/deque.h:155 | for Deque{1, 2} after one PopFront, the next PopFront as written reads the pointer before the array |
| DequeModel.Recentred | deque/deque.h:226-233 | copying the block pointers into the middle of a larger array keeps every element in its block |
| DequeModel.PlacesOutside | deque/deque.h:104-106 | changing a block pointer outside the live blocks moves no element's slot |
| DequeModel.RecentredPlaces | deque/deque.h:226-233 | after recentring, every element's position names the same block pointer at the same offset |
| DequeModel.StoresCopied | deque/deque.h:19-26 | block-by-block copies store the same elements |
| DequeModel.BlocksFor | deque/deque.h:38-41 | the doubled block count has room for the elements and is the first doubling that does |
| DequeModel.GrowBlocks | deque/deque.h:38-41 | the doubling loop computes BlocksFor |
| DequeModel.InitiallyRepresents | deque/deque.h:211-220 | two null pointers with the initial layout represent the empty deque |
| DequeModel.NewBlockArray | deque/deque.h:213-214 | a fresh pointer array of nulls |
| DequeModel.CopyBlock | deque/deque.h:21-22 | a fresh block with the same contents |
| DequeModel.CopyIntoMiddle | deque/deque.h:226-231 | a fresh array with the old pointers a shift along and nulls elsewhere |
| DequeModel.CopyTable | deque/deque.h:14-26 | the copied pointer array represents the same elements with the same layout |
| DequeModel.Deque.constructor | deque/deque.h:10-12 | an empty deque with the initial layout |
| DequeModel.Deque.Initialize | deque/deque.h:211-220 | an empty deque with two null block pointers |
| DequeModel.Deque.Size | deque/deque.h:191-193 | the number of elements |
| DequeModel.Deque.Address | deque/deque.h:163-175 | operator[]'s block and offset are those of absolute position HeadOf + index |
| DequeModel.Deque.SlotHolds | deque/deque.h:163-175 | element i's slot is the block and offset operator[] computes, an allocated block holding the element there |
| DequeModel.Deque.SlotsAdjacent | deque/test.cpp:77-82 | within a block, `&a[i] + 1 == &a[i + 1]` |
| DequeModel.Deque.AlignedSlotsAdjacent | deque/test.cpp:77-82 | when the first element starts a block, as after Deque(n), element i sits at offset i % 128, so `&a[i] + 1 == &a[i + 1]` for every i that does not end a block: every i < 127 for Deque(129) |
| DequeModel.Deque.Get | deque/deque.h:177-189 | operator[] reads the element at the index |
| DequeModel.Deque.Set | deque/deque.h:163-175 | writing through operator[] changes that element only |
| DequeModel.Deque.Reallocate | deque/deque.h:222-237 | nothing unless the array grows; every element keeps its slot (the same block at the same offset) |
| DequeModel.Deque.Grow | deque/deque.h:226-236 | a larger array with the old pointers in its middle; the elements stay |
| DequeModel.Deque.AllocateBlock | deque/deque.h:104-106 | a fresh block is hung at the head or tail pointer; every element keeps its slot |
| DequeModel.Deque.AdvanceTail | deque/deque.h:100-109 | the tail moves to the start of the next block; the elements stay in their slots |
| DequeModel.Deque.AdvanceHead | deque/deque.h:132-141 | the head moves to the end of the previous block; the elements stay in their slots |
| DequeModel.Deque.StoreAtTail | deque/deque.h:110-112 | the value is stored one past the last element; the others keep their slots |
| DequeModel.Deque.StoreAtHead | deque/deque.h:142-144 | the value is stored just before the first element; old element i keeps its slot as element i + 1 |
| DequeModel.Deque.PushBack | deque/deque.h:99-113 | appends the value; the earlier elements keep their indices and their slots, so `&a[i]` is unchanged even when the pointer array is reallocated |
| DequeModel.Deque.PushFront | deque/deque.h:131-145 | prepends the value; old element i becomes element i + 1 in the same slot, so its address is unchanged even when the pointer array is reallocated |
| DequeModel.Deque.ReleaseBlock | deque/deque.h:123-126 | frees the block behind a pointer outside the live blocks; every element keeps its slot |
| DequeModel.Deque.DropBack | deque/deque.h:119-128 | one element fewer at the tail; the rest keep their slots |
| DequeModel.Deque.DropFront | deque/deque.h:151-160 | one element fewer at the head; old element i + 1 keeps its slot as element i |
| DequeModel.Deque.PopBack | deque/deque.h:115-129 | nothing on an empty deque; otherwise the last element goes and the rest keep their order and their slots |
| DequeModel.Deque.PopFront | deque/deque.h:147-161 | nothing on an empty deque; otherwise the first element goes and the rest keep their order, old element i + 1 in its slot as element i |
| DequeModel.Deque.OfSize | deque/deque.h:37-50 | n zeros, the first at the start of a block |
| DequeModel.Deque.OfList | deque/deque.h:52-65 | the list in order |
| DequeModel.Deque.PushHalves | deque/deque.h:59-64 | the first half pushed at the front from its middle outwards, the second half at the back |
| DequeModel.Deque.AppendAll | deque/deque.h:47-49 | each value pushed at the back, in order; the head's in-block index unchanged |
| DequeModel.Deque.PrependAll | deque/deque.h:59-61 | the values pushed at the front from last to first end up in order |
| DequeModel.Deque.Copy | deque/deque.h:13-31 | the same elements and layout in fresh blocks, independent of the source |
| DequeModel.Deque.Move | deque/deque.h:32-35 | takes the source's blocks; the source is re-initialized empty |
| DequeModel.Deque.Assign | deque/deque.h:89-97 | overwrites every field |
| DequeModel.Deque.Swap | deque/deque.h:89-97 | exchanges contents and every field |
| DequeModel.Deque.CopyAssign | deque/deque.h:75-81 | the contents become the source's in fresh blocks; self-assignment changes nothing |
| DequeModel.Deque.MoveAssign | deque/deque.h:82-87 | takes the source's contents and leaves the source empty; moving a deque into itself empties it |
| DequeModel.Deque.Clear | deque/deque.h:195-198 | an empty deque with the initial layout |
| AvlSet.OrderedIffSortedWalk | set/set.h:95-105 | a tree is a search tree exactly when its in-order walk increases strictly |
| AvlSet.Minimum | set/set.h:81-86 | Min(node), the leftmost key of a subtree; MinimumIsLeast proves it the least |
| AvlSet.Maximum | set/set.h:88-93 | Max(node), the rightmost key of a subtree; MaximumIsGreatest proves it the greatest |
| AvlSet.MinimumIsLeast | set/set.h:81-86 | the leftmost node holds the least key |
| AvlSet.MaximumIsGreatest | set/set.h:88-93 | the rightmost node holds the greatest key |
| AvlSet.RotateLeft | set/set.h:323-350 | the rotation keeps the in-order walk |
| AvlSet.RotateRight | set/set.h:352-379 | the rotation keeps the in-order walk |
| AvlSet.RotateRightLeft | set/set.h:381-384 | the double rotation keeps the in-order walk |
| AvlSet.RotateLeftRight | set/set.h:386-389 | the double rotation keeps the in-order walk |
| AvlSet.SameWalkSameKeys | set/set.h:323-389 | trees with the same walk have the same keys, and order carries over |
| AvlSet.RotateLeftRebalances | set/set.h:397-401 | at -2 with a right child not leaning left, RotateLeft's balance formulas give an AVL tree, one level lower exactly when its root is even |
| AvlSet.RotateRightRebalances | set/set.h:403-407 | the mirror image at +2 |
| AvlSet.RotateRightLeftShape | set/set.h:381-384 | the tree and balances the two rotations leave |
| AvlSet.RotateRightLeftRebalances | set/set.h:397-399 | at -2 with a left-leaning right child, the double rotation gives an even AVL tree one level lower |
| AvlSet.RotateLeftRightShape | set/set.h:386-389 | the tree and balances the two rotations leave |
| AvlSet.RotateLeftRightRebalances | set/set.h:403-405 | the mirror image at +2 |
| AvlSet.Settle | set/set.h:391-420 | one pass of Rebalance leaves an AVL tree with the same walk; the walk goes on exactly when the subtree's height changed |
| AvlSet.Stops | set/set.h:393-395 | Rebalance's stop test (even after an insertion, uneven by one after an erasure) never stops at a node that still needs a rotation |
| AvlSet.SettledKeys | set/set.h:391-420 | a pass of Rebalance keeps the keys and the search order |
| AvlSet.SettleGrownLeft | set/set.h:139-140 | a left subtree one level taller: the rebalanced node has grown exactly when the walk goes on |
| AvlSet.SettleGrownRight | set/set.h:149-150 | the mirror image for a taller right subtree |
| AvlSet.SettleShrunkLeft | set/set.h:182-183 | a left subtree one level lower: the rebalanced node has shrunk exactly when the walk goes on |
| AvlSet.SettleShrunkRight | set/set.h:193-194 | the mirror image for a lower right subtree |
| AvlSet.InsertNode | set/set.h:119-163 | the tree after an insertion is an AVL tree, one level taller exactly when it grew |
| AvlSet.InsertNodeKeys | set/set.h:131-156 | insertion adds exactly the key and keeps the order; a node is added exactly when the key was absent; a present key leaves the tree as it was |
| AvlSet.InsertBelowKeys | set/set.h:133-142 | the insertion step into the left subtree |
| AvlSet.InsertAboveKeys | set/set.h:143-152 | the insertion step into the right subtree |
| AvlSet.RemoveMin | set/set.h:174-180 | unlinking the successor leaves an AVL tree, one level lower exactly when it shrank |
| AvlSet.RemoveMinWalk | set/set.h:174-180 | the node taken out is the least key, and the rest of the walk remains |
| AvlSet.RemoveRoot | set/set.h:178-209 | removing a subtree's root leaves an AVL tree, one level lower exactly when it shrank |
| AvlSet.RemoveRootWalk | set/set.h:178-204 | removing the root leaves the walks of its two children, one after the other |
| AvlSet.EraseNode | set/set.h:170-211 | the tree after an erasure is an AVL tree, one level lower exactly when it shrank |
| AvlSet.EraseNodeKeys | set/set.h:170-211 | erasure removes exactly the key and keeps the order |
| AvlSet.EraseBelowKeys | set/set.h:170-211 | the erasure step into the left subtree |
| AvlSet.EraseAboveKeys | set/set.h:170-211 | the erasure step into the right subtree |
| AvlSet.EraseAbsentUnchanged | set/set.h:213-218 | erasing an absent key leaves the tree as it was |
| AvlSet.RemovedRootKeys | set/set.h:178-204 | removing a root leaves a search tree of the other keys |
| AvlSet.DeepCopy | set/set.h:242-266 | the copy has the same keys, shape and balances |
| AvlSet.Min | set/set.h:81-86 | the loop finds the leftmost key |
| AvlSet.Max | set/set.h:88-93 | the loop finds the rightmost key |
| AvlSet.LeastUnique | set/set.h:225-227 | a set has one least element |
| AvlSet.LeastAfterAddition | set/set.h:157-159 | after adding a key, the least element is the new key if it is below the old least, else the old least |
| AvlSet.LeastAfterRemoval | set/set.h:175-177 | after removing the least key, its successor is the least |
| AvlSet.First | set/set.h:225-227 | Begin(), the leftmost node or End; FirstIsLeast proves it the least key |
| AvlSet.FirstIsLeast | set/set.h:225-227 | Begin is the least key, or End for an empty tree |
| AvlSet.FirstAfterInsert | set/set.h:157-159 | the leftmost node after inserting a new key is the new node when its key is below the old minimum |
| AvlSet.FirstAfterErase | set/set.h:175-177 | the leftmost node after erasing is the erased node's successor when that node was leftmost |
| AvlSet.LargerInSubtree | set/set.h:96-98 | the keys above a node's key in its subtree are its right subtree's, the least at its leftmost node |
| AvlSet.SmallerInSubtree | set/set.h:108-110 | the mirror image for the left subtree |
| AvlSet.SuccessorFromDescent | set/set.h:95-105 | the successor is the leftmost of the right subtree, else the nearest ancestor the node lies left of, else End |
| AvlSet.PredecessorFromDescent | set/set.h:107-117 | the predecessor is the rightmost of the left subtree, else the nearest ancestor the node lies right of, else nullptr |
| AvlSet.Successor | set/set.h:95-105 | the walk returns the node with the next larger key, or End after the largest |
| AvlSet.Predecessor | set/set.h:107-117 | the walk returns the node with the next smaller key, or nullptr before the smallest |
| AvlSet.SingleNode | set/set.h:124-130 | the node hung under the sentinel of an empty tree is a one-key AVL tree |
| AvlSet.AvlTree.constructor | set/set.h:29-31 | an empty tree whose Begin is End |
| AvlSet.AvlTree.Copy | set/set.h:33-47 | the same tree, keys and size; Begin found again |
| AvlSet.AvlTree.Swap | set/set.h:317-321 | exchanges the whole state |
| AvlSet.AvlTree.Assign | set/set.h:51-55 | the tree and keys become the source's |
| AvlSet.AvlTree.Find | set/set.h:57-79 | the key's node if present; otherwise End, or with the lower-bound flag the node with the least larger key (End if none) |
| AvlSet.AvlTree.Next | set/set.h:95-105 | the in-order successor, End after the largest key; nullptr from End |
| AvlSet.AvlTree.Prev | set/set.h:107-117 | the in-order predecessor, nullptr before the smallest; from End the largest key, or nullptr when empty |
| AvlSet.AvlTree.Insert | set/set.h:119-168 | adds the key and returns its node; size grows by one exactly when it was absent; a present key leaves the tree alone |
| AvlSet.AvlTree.EraseAt | set/set.h:170-211 | End changes nothing and returns End; a node is removed alone, size drops by one, and its successor is returned |
| AvlSet.AvlTree.Erase | set/set.h:213-219 | removes the key; an absent key changes nothing and returns End; otherwise the successor is returned |
| AvlSet.AvlTree.Size | set/set.h:221-223 | the number of keys |
| AvlSet.AvlTree.Begin | set/set.h:225-227 | the least key, or End when empty |
| AvlSet.Set.constructor | set/set.h:491-492 | an empty set |
| AvlSet.Set.OfSeq | set/set.h:493-500 | holds exactly the listed keys |
| AvlSet.Set.InsertAll | set/set.h:495-497 | the loop adds exactly the listed keys |
| AvlSet.Set.Copy | set/set.h:501-502 | the same keys in a tree of its own |
| AvlSet.Set.Assign | set/set.h:505-509 | the keys become the source's, in a tree of its own |
| AvlSet.Set.Size | set/set.h:511-513 | the number of keys |
| AvlSet.Set.Empty | set/set.h:514-516 | true exactly when there are no keys |
| AvlSet.Set.Insert | set/set.h:518-520 | adds the key |
| AvlSet.Set.Erase | set/set.h:522-524 | removes the key |
| AvlSet.Set.Begin | set/set.h:526-528 | the least key, or end() when empty |
| AvlSet.Set.Find | set/set.h:533-535 | the key's position, or end() when absent |
| AvlSet.Set.LowerBound | set/set.h:536-538 | the key's position, else the least larger key, else end() |
| AvlSet.Set.Next | set/set.h:451-459 | iterator++ goes to the next key, end() after the largest, a null iterator from end() |
| AvlSet.Set.Prev | set/set.h:461-469 | iterator-- goes to the previous key; from end() to the largest key |

## Left out

- Concurrency in the MPMC queue: atomics, memory orderings, the
  compare-and-swap retry loops and `yield`. Calls are sequential, so every
  compare-and-swap succeeds at once and each `while (true)` loop runs once.
  The multithreaded tests and benchmarks are left out too.
- The spinlock, mutex, rw-lock and semaphore directories: their behaviour
  is concurrency and system calls.
- Fixed-width integers: `size_t`, `uint64_t`, `int` and the AVL tree's
  `int8_t` balance are unbounded integers. Balances stay within -2..2, and
  no count or cursor reaches 2^64 in any modelled use.
- Memory management: `delete`, destructors and leaks are not observable.
  Destructors that only free memory are left out. Those with visible
  effects are methods: `Deque.Clear`, `List.Destroy`, the intrusive
  `List.Destroy` and `SharedPtr.Release`/`WeakPtr.Release`, which return
  what they would free.
- Printing: `AVLTree::Print` and every `operator<<` are stream output.
- Vector iterators: their address arithmetic is left out.
- Deque iterators, the list's const iterators and the intrusive list's
  `IteratorTo` are left out.
- Optional's storage: placement `new` into `buf_`, alignment, and `operator->`
  beyond reading the value.
- Any's RTTI: `typeid` and `dynamic_cast` are an explicit type tag. The
  `NotAny` constraint is a matter for the C++ type system.
- AVL tree representation:
  - The tree is a value. Parent links, `shared_ptr`/`weak_ptr` ownership and
    `SwapNodes` are not modelled.
  - Insert and Erase rebuild the search path. `Settle` is one pass of
    `Rebalance`, applied bottom-up along that path.
  - The effect on keys, balances and heights is the source's. The identity of
    node objects is not modelled.
- AVL iterators:
  - `AvlSet.AvlTree.Next` and `AvlSet.AvlTree.Prev` find the successor and
    predecessor by a descent from the root that remembers the last turn,
    not by climbing parent links. The node they reach is the same.
  - `End()` and `end()` (set/set.h:228-230, 529-531) are the cursor
    constant `End` rather than members.
  - An iterator is the node's key. `operator*` is that key, and
    `operator==` is equality of cursors.
- The AVL tree's key type is `int`, and the Set's `KeyType` comparison is
  `<` on ints.
- `ListModel.List.Destroy`: deleting the root node is not modelled.
- Writes to owning-list elements are not modelled. `Front()`, `Back()`
  (list/list.h:178-189) and `iterator::operator*` (list/list.h:46-48)
  return `T&`, but a node's value is fixed when the node is made, and no
  `ListModel.List` method changes it in place.
- `MpmcModel.MPMCBoundedQueue.constructor`: a size of 0 is excluded. The
  mask `max_size_ - 1` would wrap around and index outside the vector.
- Behaviour on misuse that the source does not check is a precondition:
  - indices outside the vector or deque;
  - Front/Back/PopBack/PopFront on an empty owning list;
  - `Erase(End())` on the owning list (list/list.h:204-209 would unlink
    and delete the root node): `ListModel.List.Erase` requires a position
    other than End;
  - Front/Back on an empty intrusive list;
  - pushing an element that is already in the intrusive list;
  - `++` or `--` on a null set iterator (set/set.h:96, 108 dereference it):
    `AvlSet.AvlTree.Next`, `AvlSet.AvlTree.Prev`, `AvlSet.AvlTree.EraseAt`,
    `AvlSet.Set.Next` and `AvlSet.Set.Prev` require a cursor that is not
    `Null`.

## Findings

| source | as written | input that shows it | evidently intended | confidence | as-written member | corrected member |
|---|---|---|---|---|---|---|
| deque/deque.h:121-127 | PopBack reads `*tail_block_ptr_` when the tail index drops below zero, even when the tail block pointer is one past the pointer array | `Deque{1, 2}`, then PopBack twice: the second PopBack reads `blocks_[num_blocks_]` | touch the pointer after the new tail block only when it lies inside the array | not executed | DequeModel.PopBackReadsPastEnd | DequeModel.PopBackReleased |
| deque/deque.h:153-159 | PopFront reads `*head_block_ptr_` when the head index reaches 128, even when the head block pointer is one before the array | `Deque{1, 2}`, then PopFront twice: the second PopFront reads `blocks_[-1]` | touch the pointer before the new head block only when it lies inside the array | not executed | DequeModel.PopFrontReadsBeforeStart | DequeModel.PopFrontReleased |
| mpmc-bounded-queue/mpmc.h:19-21 | any positive size is accepted because the power-of-two check is commented out; for a size that is not a power of two, the mask `max_size_ - 1` does not reduce positions modulo the size | size 3: Enqueue(1), Enqueue(2), then Dequeue returns 2 (positions 0 and 1 share slot 0) | accept only power-of-two sizes | not executed | MpmcModel.SizeThreeReorders | MpmcModel.MPMCBoundedQueue.Checked |
| mpmc-bounded-queue/mpmc.h:32-61 | with size 1, a slot holding the value for position p has epoch p + 1, which is also the epoch that frees it for position p + 1; the full test at line 32 never fires, and Dequeue's bump `max_size_ - 1` at line 61 is 0; the commented-out check at line 20 accepts size 1, so it would not catch this | size 1: Enqueue(1) and Enqueue(2) both succeed and both Dequeues return 2 | refuse sizes below 2 as well | not executed | MpmcModel.SizeOneOverwrites | MpmcModel.MPMCBoundedQueue.Checked |
| any/any.h:115-117 | Cast dereferences `inner_ptr_` without a null check | `Any c; c.GetValue<double>()` on an empty Any; the test at any/test.cpp:143-144 expects `std::bad_cast` | an empty Any throws `std::bad_cast` | not executed | AnyModel.EmptyCastDereferencesNull | AnyModel.Any.GetValue |

Three behaviours follow the code where a reader might expect otherwise.
They are not defects:
- moving a deque or an owning list into itself empties it (the destructor
  runs first);
- moving an intrusive list into itself empties it too;
- assigning a deque, Any or Optional to itself changes nothing, while
  assigning a vector to itself copies it into a new buffer and shrinks its
  capacity to its size (vector.h:100-104 has no self check).

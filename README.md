# CovScript core containers

A Dafny model of the four generic containers in
`include/covscript/core/components.hpp`, the interpreter's low-level
support code:

- `stack_type<T, m_size>`: a fixed-capacity evaluation stack over an
  in-place array, with a cursor and an iterator that walks from the top
  down to the base. It raises `E000I` on overflow and `E000H` on underflow.
- `allocator_type<T, blck_size>`: a buffer pool that keeps up to
  `blck_size` freed storage slots in a LIFO array. It hands them out again
  before it asks the backing allocator for fresh storage.
- `tree_type<T>`: an intrusive binary tree whose nodes carry a parent
  back-link. Handles (`iterator`) may be null. It has splicing inserts
  above a node or into a child slot, erase, reserve (promote a child),
  merge (graft a deep copy) and deep copy and recursive destroy.
- `garbage_collector<T>`: two singly linked lists of addresses. At
  teardown it deletes every tracked address that was never released.

Modules:

- `Errors` (errors.dfy): the three error codes and a `Result`/`Outcome`
  pair standing in for `cov::error` exceptions.
- `StaticStack` (stack.dfy): the stack. Its abstract value is a sequence,
  oldest first. Functions `Pushed`, `TopOf`, `Popped`, `Dropped` and `Walk`
  say what each operation does to that sequence. The class `Stack` keeps an
  `array` of `m_size` slots and a count, and each method is proved to follow
  those functions.
- `BufferPool` (pool.dfy): the pool. `PoolState`, `AllocStep` and
  `FreeStep` are the reference behaviour. The class `Pool` keeps the slot
  array and `mOffset`, a fresh-address counter for the backing allocator,
  and ghost sets of the addresses held by clients and the addresses given
  back.
- `TreeShape` (tree_shape.dfy) and `TreeEdits` (tree_edits.dfy): the
  tree's arena of nodes, keyed by id. A ghost `Shape` records the tree the
  child links spell out. `Shaped` and `Parented` relate the arena to it,
  and `ValueOf` reads off the tree of payloads. Each `TreeEdits` lemma
  performs exactly the link writes of one tree operation and proves that
  the result is the arena of the edited shape.
- `BinaryTree` (tree.dfy): the class `Tree<T>` with fields `nodes`, `root`,
  `nextId` and the ghost `shape`. Each operation performs the source's
  writes in the source's order. `copy` links the left copy before it copies
  the right subtree, as lines 362-363 do. Each edit states the new shape,
  and with it the new tree of payloads; `ShapedUnique` shows that the
  arena spells out no other shape from that root.
- `GarbageCollector` (collector.dfy): the collector. `Sweep` is the
  reference definition of what teardown deletes.

Parent links are modelled as the source maintains them, which is weaker
than "every parent link is correct". `insert_root_left` and
`insert_root_right` on the root create the new root but never set the old
root's parent link (lines 516 and 533). So the invariant `Valid()` allows a
node's parent link to be either its parent or missing. `LinksExact()` is
the strong form. Every operation keeps exact links exact, except that one.
The operations that follow a parent link (`insert_root_*` below the root,
`erase`, `reserve_*`, `merge`) require it to be set (`ParentKnown`).
`ExactKnown` shows that this precondition always holds while links are
exact.

Lines 526 and 543 write `it.mData.root = node`, which does not compile
once the template is instantiated. The model follows the evident intent,
`it.mData->root = node`, which the `emplace_root_*` twins state at lines
605 and 623.

## Model

| member | source | states |
|---|---|---|
| StaticStack.WalkAt | include/covscript/core/components.hpp:201-205 | the k-th element the iterator visits is the k-th counted from the top |
| StaticStack.WalkLength | include/covscript/core/components.hpp:280-288 | iterating from begin() to end() visits exactly size() elements |
| StaticStack.PushTopPop | include/covscript/core/components.hpp:248-271 | push(v) on a stack with room succeeds; top() then yields v; pop() returns v and restores the previous contents; pop_no_return() restores them too |
| StaticStack.PushedBound | include/covscript/core/components.hpp:243-261 | push succeeds iff the stack is not full, and never takes it beyond m_size |
| StaticStack.Lifo | include/covscript/core/components.hpp:255-271 | pushing v1..vn where there is room, then popping n times, yields vn..v1 and leaves the original stack |
| StaticStack.PopAllPushed | include/covscript/core/components.hpp:263-271 | popping as many times as values were pushed returns them top first and leaves the stack below them |
| StaticStack.Overflow | include/covscript/core/components.hpp:255-261 | pushing more values than there is room for fails with E000I |
| StaticStack.Stack.constructor | include/covscript/core/components.hpp:223 | a new stack has m_size slots and no elements |
| StaticStack.Stack.Empty | include/covscript/core/components.hpp:233-236 | true iff the stack holds no element |
| StaticStack.Stack.Size | include/covscript/core/components.hpp:238-241 | the number of elements, at most m_size |
| StaticStack.Stack.Full | include/covscript/core/components.hpp:243-246 | true iff the stack holds m_size elements |
| StaticStack.Stack.Top | include/covscript/core/components.hpp:248-253 | the most recently pushed element; E000H exactly when the stack is empty |
| StaticStack.Stack.Push | include/covscript/core/components.hpp:255-261 | appends v when there is room; otherwise E000I and the stack is unchanged |
| StaticStack.Stack.Pop | include/covscript/core/components.hpp:263-271 | removes and returns the top element; E000H on an empty stack, which is left unchanged |
| StaticStack.Stack.PopNoReturn | include/covscript/core/components.hpp:273-278 | removes the top element; E000H on an empty stack, which is left unchanged |
| StaticStack.Stack.Begin | include/covscript/core/components.hpp:280-283 | begin() equals end() exactly on an empty stack; otherwise *begin() is top() |
| StaticStack.Stack.Next | include/covscript/core/components.hpp:201-210 | ++ moves the cursor one slot towards the base: from the base it reaches end(); from any other element it reaches the element the top-down walk visits right after the one at the cursor |
| StaticStack.Stack.Deref | include/covscript/core/components.hpp:191-194 | *it is the element at the cursor's slot |
| StaticStack.Stack.Elements | include/covscript/core/components.hpp:201-221 | the loop from begin() to end() yields the elements top first |
| StaticStack.Stack.Dispose | include/covscript/core/components.hpp:227-231 | the destructor destroys every element, top first, and leaves the stack empty |
| BufferPool.InitialCount | include/covscript/core/components.hpp:298-302 | the constructor pools the least count that is at least half of blck_size, never more than blck_size |
| BufferPool.FreeThenAlloc | include/covscript/core/components.hpp:313-331 | free(p) then alloc() returns p and restores the pool, when the pool had room |
| BufferPool.FreeWhenFull | include/covscript/core/components.hpp:324-331 | free on a full pool deallocates the slot and leaves the pool as it was |
| BufferPool.AllocFresh | include/covscript/core/components.hpp:313-322 | alloc takes fresh backing storage exactly when the pool is empty; otherwise it returns a pooled slot |
| BufferPool.AllocFreeAlloc | include/covscript/core/components.hpp:313-331 | alloc, free and alloc again returns the same slot and takes no more backing storage |
| BufferPool.ServeBound | include/covscript/core/components.hpp:313-331 | under any sequence of requests the pool never holds more than blck_size slots, and backing storage grows by at most one address per alloc request |
| BufferPool.Pool.constructor | include/covscript/core/components.hpp:298-302 | pools InitialCount(blck_size) fresh slots, in allocation order |
| BufferPool.Pool.Alloc | include/covscript/core/components.hpp:313-322 | returns the most recently pooled slot, or fresh storage when none is pooled; the slot was not held by a client |
| BufferPool.Pool.Free | include/covscript/core/components.hpp:324-331 | pools p while fewer than blck_size slots are pooled, otherwise deallocates it |
| BufferPool.Pool.Dispose | include/covscript/core/components.hpp:306-310 | deallocates every pooled slot, most recently pooled first, and leaves the count at 0 |
| TreeEdits.InsertAtRoot | include/covscript/core/components.hpp:513-545 | a new parentless root holds the old tree on the chosen side; the old root's parent link stays unset |
| TreeEdits.InsertAboveNode | include/covscript/core/components.hpp:513-545 | below the root, the new node takes x's slot in x's parent and holds x's subtree; exact links stay exact |
| TreeEdits.InsertBelowNode | include/covscript/core/components.hpp:547-589 | the new node takes the child slot and holds the old child on the chosen side; exact links stay exact |
| TreeEdits.EraseNode | include/covscript/core/components.hpp:675-693 | clearing the parent's slot and deleting x's subtree leaves the arena of the tree without that subtree |
| TreeEdits.EraseChildNode | include/covscript/core/components.hpp:735-751 | deleting a child subtree and clearing its slot leaves the arena of the tree without it |
| TreeEdits.ReserveNode | include/covscript/core/components.hpp:695-733 | the promoted child takes x's place with its parent link set to x's parent; x and its other subtree are what destroy deletes |
| TreeEdits.MergeNode | include/covscript/core/components.hpp:753-769 | the copy takes x's place below x's parent; x's subtree is what destroy deletes; nothing else outside the copy changes |
| TreeEdits.CopyJoin | include/covscript/core/components.hpp:358-365 | linking a fresh node to its copied subtrees yields a well-linked copy with the same payloads |
| TreeShape.ShapedUnique | include/covscript/core/components.hpp:337-341 | the child links fix the tree: two shapes an arena spells out from the same root are equal |
| BinaryTree.Tree.ExactKnown | include/covscript/core/components.hpp:335-341 | with exact links, every live node is the root or has its parent link set |
| BinaryTree.Tree.Destroy | include/covscript/core/components.hpp:367-374 | deletes exactly the nodes of the subtree |
| BinaryTree.Tree.Copy | include/covscript/core/components.hpp:358-365 | allocates fresh nodes with the source subtree's shape and payloads and exact parent links, and touches no existing node |
| BinaryTree.Tree.constructor | include/covscript/core/components.hpp:452 | the empty tree |
| BinaryTree.Tree.FromHandle | include/covscript/core/components.hpp:454 | a tree holding a copy of the subtree the handle denotes |
| BinaryTree.Tree.Clone | include/covscript/core/components.hpp:456 | a tree holding a copy of t |
| BinaryTree.Tree.Moved | include/covscript/core/components.hpp:458-462 | takes over t's contents and leaves t empty |
| BinaryTree.Tree.Swap | include/covscript/core/components.hpp:438-450 | the two trees exchange their contents |
| BinaryTree.Tree.Dispose | include/covscript/core/components.hpp:464-467 | deletes every node |
| BinaryTree.Tree.Assign | include/covscript/core/components.hpp:469-490 | holds a copy of t with exact links and fresh ids; assigning a tree to itself changes nothing |
| BinaryTree.Tree.IsEmpty | include/covscript/core/components.hpp:492-495 | true iff the tree holds no node |
| BinaryTree.Tree.Clear | include/covscript/core/components.hpp:497-501 | deletes every node and leaves the empty tree |
| BinaryTree.Tree.Root | include/covscript/core/components.hpp:503-511 | the root handle, null iff the tree is empty; it has no parent and denotes the whole tree |
| BinaryTree.Tree.Data | include/covscript/core/components.hpp:402-414 | the payload at the handle; E000E exactly on a null handle |
| BinaryTree.Tree.ChildOf | include/covscript/core/components.hpp:423-435 | the child handle, which denotes that side of the handle's subtree; E000E exactly on a null handle |
| BinaryTree.Tree.Parent | include/covscript/core/components.hpp:416-421 | the parent link, which names the parent when set; with exact links it is null only at the root; E000E exactly on a null handle |
| BinaryTree.Tree.SetData | include/covscript/core/components.hpp:402-407 | stores a payload through data(); only that node's payload changes; E000E on a null handle |
| BinaryTree.Tree.InsertAbove | include/covscript/core/components.hpp:513-545 | at the root, a new root holds the old tree; elsewhere the new node takes the node's slot in its parent; E000E on a null handle of a non-empty tree, which is left unchanged |
| BinaryTree.Tree.InsertBelow | include/covscript/core/components.hpp:547-589 | the new node takes the child slot, holds the old child on the chosen side and becomes its parent; the whole tree's shape is the old one with that edit at the node; E000E on a null handle, tree unchanged |
| BinaryTree.Tree.Erase | include/covscript/core/components.hpp:675-693 | erasing the root empties the tree and returns null; elsewhere it clears exactly the parent's slot, deletes the subtree and returns the parent; E000E on a null handle |
| BinaryTree.Tree.EraseChild | include/covscript/core/components.hpp:735-751 | deletes one child subtree, clears its slot and keeps the node; the whole tree's shape is the old one with that slot empty; E000E on a null handle |
| BinaryTree.Tree.Reserve | include/covscript/core/components.hpp:695-733 | the chosen child takes the node's slot (or becomes the root) with its parent link updated; the node and its other subtree are deleted; the whole tree's shape is the old one with the child's subtree in the node's place; E000E on a null handle |
| BinaryTree.Tree.Merge | include/covscript/core/components.hpp:753-769 | a deep copy of t takes the node's slot (or becomes the root) with its root's parent link set to the node's old parent; the node's subtree is deleted; t is unchanged; E000E on a null handle |
| GarbageCollector.RemoveAll | include/covscript/core/components.hpp:784-785 | forward_list::remove drops every occurrence of the address and keeps the rest |
| GarbageCollector.RemoveAllSweep | include/covscript/core/components.hpp:784-785 | removing one more released address sweeps with that address released |
| GarbageCollector.SweepMembers | include/covscript/core/components.hpp:782-788 | an address is deleted iff it was added and never released |
| GarbageCollector.SweepCount | include/covscript/core/components.hpp:782-788 | an unreleased address is deleted once per add; a released one is never deleted |
| GarbageCollector.SweepReverse | include/covscript/core/components.hpp:790-793 | since add prepends, survivors are deleted in the reverse of the order they were added |
| GarbageCollector.ScopedCleanup | include/covscript/core/components.hpp:782-798 | of three objects added with one released, the other two are deleted once each, the later-added first |
| GarbageCollector.SweepNothingReleased | include/covscript/core/components.hpp:782-788 | with nothing released, every added address is deleted |
| GarbageCollector.Collector.constructor | include/covscript/core/components.hpp:778 | both lists start empty |
| GarbageCollector.Collector.Add | include/covscript/core/components.hpp:790-793 | prepends the address to the tracked list and deletes nothing |
| GarbageCollector.Collector.Remove | include/covscript/core/components.hpp:795-798 | prepends the address to the released list and deletes nothing |
| GarbageCollector.Collector.Dispose | include/covscript/core/components.hpp:782-788 | deletes exactly Sweep(tracked, released), in list order |

## Left out

- Exceptions: the exception classes and `cov::error` (lines 26-167 and
  line 22) are not modelled. A thrown error is a `Result.Err` or
  `Outcome.Fail` carrying its code, and the state is left as it was.
- Raw storage: `aligned_storage`, placement `new`, explicit destructor
  calls and the backing `allocator_t` are represented by array slots and
  abstract addresses. `T`'s constructors, destructors and moves run no
  code.
- StaticStack.Stack: `T` must have a default value (`T(0)`) so that the
  model can allocate the array of slots. The source keeps uninitialised
  raw storage.
- StaticStack.Stack.Top and StaticStack.Stack.Deref return the element,
  not a reference to it. Writing through `top()` or `*it` is not
  modelled.
- StaticStack.Stack.Next models both `++it` and `it++`, and comparing two
  iterators is equality of cursor positions.
- emplace_*: the `emplace_root_*` and `emplace_*_*` variants (lines
  591-673) differ from the `insert_*` ones only in how the payload is
  constructed. They are `InsertAbove` and `InsertBelow` with an already
  constructed value.
- BufferPool.InitialCount: the floating-point test `mOffset < 0.5 * blck_size`
  (line 300) is stated as the integer bound `(blck_size + 1) / 2`. The two
  agree for every `blck_size` up to 2^53. Above that, converting `blck_size`
  and `mOffset` to `double` can make the source pool fewer than
  `(blck_size + 1) / 2` slots, never more.
- BufferPool.Pool.Alloc and BufferPool.Pool.Free: constructing and
  destroying the `T` in the slot (lines 320 and 326) is left out.
  `Free` requires a slot the caller holds from this pool's `Alloc`. The
  source pools any slot without a check. That includes a slot a client got
  from another pool over the same stateless `std::allocator<T>`, which is
  defined behaviour there. The model does not capture slots from other
  pools.
- BinaryTree.Tree: handles must be live, that is null or a node of this
  tree (`Live`). Using a deleted node is undefined in the source and is not
  modelled. The checks `it.mData == mRoot` after `destroy` (lines 710,
  730 and 766) compare a freed pointer. They are modelled by their intent:
  whether the node was the root before.
- BinaryTree.Tree.InsertAbove, BinaryTree.Tree.Erase,
  BinaryTree.Tree.Reserve and BinaryTree.Tree.Merge require `ParentKnown`.
  The source reads the parent link without a check and would dereference
  null or leave a dangling child slot when it is missing.
- BinaryTree.Tree.Reserve requires the promoted child to exist. The
  source dereferences it unchecked (lines 702 and 722).
- BinaryTree.Tree.Erase: the test `root != nullptr` (line 685) cannot fail
  for a non-root node whose parent link is set. The model has no branch
  for it.
- BinaryTree.Tree.Swap: it exchanges the whole arenas rather than just the
  root pointers, since each tree owns its own node map. `swap(tree_type&&)`
  and `operator=(tree_type&&)` are the same operation.
- BinaryTree.Tree.Assign models both `operator=(const tree_type&)` and
  `assign`, which have the same body. Returning `*this` is not modelled.
- BinaryTree.Tree.Data models both overloads of `data()`, and
  BinaryTree.Tree.Root both overloads of `root()`.
- Node ids: `new tree_node` receives the next value of a counter, and a
  failing allocation (`bad_alloc`) is not modelled.
- GarbageCollector.Collector.Dispose returns the addresses it deletes, in
  order, instead of running `delete`. An address added twice and never
  released is deleted twice, which is a double delete in the source.
- Concurrency: the containers are single-threaded and none is modelled.

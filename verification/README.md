# CASTLE: containers, callbacks and chrono, verified

CASTLE is a C++ library of fixed-capacity containers, callback policies and registries, chrono and bit
utilities that never allocate. This project models its most intricate parts in Dafny 4 and proves what they
promise, for every input, every run and every interleaving.

| files | what they model |
|---|---|
| `AvlShape`, `AvlPool`, `AvlKeys`, `AvlWalk`, `AvlTree` | the AVL tree in a fixed pool of nodes: pure trees with a zipper, their image in the pool, key order and contents, iteration, and the container class itself |
| `HashTable` | the open-addressed table with tombstones |
| `BoundedMap`, `Agreement` | the bounded map both containers stand for, and their agreement on every run |
| `HeapOrder`, `HeapSort`, `Heap` | heap order, the in-place heapsort, the heap container |
| `PoolLinks`, `ForwardList` | links into a node pool, and the singly linked list threaded through one |
| `Interleaving`, `Once`, `ArmedWindow`, `EveryN`, `Periodic` | the execution policies: sequentially as classes, and as atomic steps of any number of threads |
| `Registry`, `RegistryRuns` | the callback registries and their generation-checked handles, and whole runs over both |
| `Ratio`, `Duration` | reduced ratios, and durations across periods |
| `Bits` | the halving and smearing algorithms for every power-of-two width |
| `Basics`, `Arithmetic`, `Counting` | shared vocabulary, integer facts, counting in sequences |

`dafny verify dfyconfig.toml` checks the whole project.

Reading the model:

- Node pointers are pool indices or null. A container class keeps ghost fields (a tree, a map, sequences of
  slots, histories) that its invariant ties to the real fields; every method states its effect on both.
- Elements, keys, values and callbacks are plain values. Comparators, hash functions and clock readings are
  parameters; comparators are strict weak orders, and equal keys hash equally.
- A run of a concurrent policy is any sequence of atomic steps (load, clock reading, exchange, store,
  fetch-and-add, callback start). A step its thread is not about to take changes nothing, so a claim about
  all sequences covers all interleavings. Callbacks may use the policy themselves.
- Some promises hold only within a bound the code does not check, and the project says exactly which.
  For `every_n`, n times the runs stays within the calls in all runs of a number of threads exactly when n
  divides the number of counter values or threads times n is below it (`EveryNPolicy.RunsWithinCallsIff`).
  Subscription handles tell all registrations apart in runs of up to 2^33 + 1 operations and no longer ones
  (`RegistryRuns.RunsAgreeIff`). With a clock that does not run backwards and positive windows, `armed_window`
  never fires past the deadline in force (`ArmedWindowPolicy.FiresBeforeDeadline`), and its threads always decide
  right by it exactly when none is written while a thread is about to expire (`ArmedWindowPolicy.DecidesRightIff`).
  `next_power_of_two` wraps to zero exactly above half the range (`Bits.NextPowerOfTwo`).
- The header of `math/gcd.hpp` warns of negative results for negative operands; the code takes absolute
  values first. The model follows the code, and periods are positive anyway.

## Model

| member | source | states |
|---|---|---|
| `AvlShape.BalanceKeepsOrder` | include/castle/container/avl_tree.hpp:1055-1075 | every single or double rotation keeps the in-order sequence and the set of slots, whatever the heights |
| `AvlShape.BalanceRestores` | include/castle/container/avl_tree.hpp:1055-1075 | a height difference of at most two is repaired, the height changes by at most one, and a balanced node is left alone |
| `AvlShape.WalkStep` | include/castle/container/avl_tree.hpp:1055-1075 | one turn of the upward walk, which revisits a rotated node, keeps the final result and strictly approaches it |
| `AvlShape.RebalanceUpBalanced` | include/castle/container/avl_tree.hpp:1055-1075 | the walk from any repairable hole to the root leaves every balance factor in -1..1 |
| `AvlShape.RebalanceUpOrder` | include/castle/container/avl_tree.hpp:1055-1075 | the walk keeps the in-order sequence, the slots and the size |
| `AvlShape.DropSimple` | include/castle/container/avl_tree.hpp:1081-1117 | a node with at most one child gives its place to that child, and only that slot leaves the order |
| `AvlShape.DropTwo` | include/castle/container/avl_tree.hpp:1081-1117 | a node with two children gives its place to the leftmost node of its right subtree, and only that slot leaves the order |
| `AvlShape.DropTwoRepairable` | include/castle/container/avl_tree.hpp:1081-1117 | where the walk starts after a two-child erasure, the tree is off by at most one level, for an adjacent and for a deep successor |
| `AvlShape.HeightIsLongest` | include/castle/container/avl_tree.hpp:935-961 | the height is the number of nodes on the longest way down from the root |
| `AvlShape.BalancedSize` | include/castle/container/avl_tree.hpp:935-961 | a balanced tree of height h has at least Fib(h+2)-1 nodes |
| `AvlShape.HeightBound` | include/castle/container/avl_tree.hpp:935-961 | a balanced tree of fewer than 2^64 nodes is at most 91 levels high |
| `AvlPool.LeftRotated` | include/castle/container/avl_tree.hpp:993-1018 | the link writes of a left rotation turn the pool image of a tree into that of the rotated tree, parent links included |
| `AvlPool.RightRotated` | include/castle/container/avl_tree.hpp:1024-1049 | likewise for a right rotation |
| `AvlPool.SplicedDeep` | include/castle/container/avl_tree.hpp:1081-1117 | taking a deep successor out of its place leaves its right subtree there and the rest of the image intact |
| `AvlPool.Substituted` | include/castle/container/avl_tree.hpp:1081-1117 | putting the successor where the erased node was yields the image of the tree without that node |
| `AvlKeys.KeysDiffer` | include/castle/container/avl_tree.hpp:762-814 | no two slots of an ascending tree hold equivalent keys |
| `AvlKeys.AbsentAtLeaf` | include/castle/container/avl_tree.hpp:890-910 | a descent that ends at a null link proves that no equivalent key is stored |
| `AvlKeys.InsertSound` | include/castle/container/avl_tree.hpp:762-814 | linking a fresh slot where its key belongs keeps keys ascending, adds exactly that entry, takes one slot from the free list and moves no entry |
| `AvlKeys.EraseSound` | include/castle/container/avl_tree.hpp:1081-1117 | dropping a slot keeps keys ascending, removes exactly that entry, returns the slot to the free list and moves no entry |
| `AvlWalk.SuccessorIsNext` | include/castle/container/avl_tree.hpp:233-259 | the links from a node lead to the next slot of the in-order sequence |
| `AvlWalk.PredecessorIsPrevious` | include/castle/container/avl_tree.hpp:268-294 | the links from a node lead to the previous slot of the in-order sequence |
| `AvlWalk.StepBehind` | include/castle/container/avl_tree.hpp:713-724 | in the half-released tree that `clear` walks, a step goes to the next node or to an already released parent, where the walk stops |
| `AvlContainer.AvlTree.constructor` | include/castle/container/avl_tree.hpp:420-433 | a new tree is empty and valid |
| `AvlContainer.AvlTree.InitialisePool` | include/castle/container/avl_tree.hpp:1122-1135 | all slots are on the free list in address order |
| `AvlContainer.AvlTree.AllocateNode` | include/castle/container/avl_tree.hpp:840-854 | takes the head of the free list and clears its links, or answers null and changes nothing |
| `AvlContainer.AvlTree.ReleaseNode` | include/castle/container/avl_tree.hpp:860-873 | destroys the entry, nulls the links and pushes the slot onto the free list |
| `AvlContainer.AvlTree.UpdateHeight` | include/castle/container/avl_tree.hpp:956-961 | stores one more than the greater child height, modulo 256 |
| `AvlContainer.AvlTree.UpdateExactHeight` | include/castle/container/avl_tree.hpp:956-961 | the only caller of the update, in rotations, in the walk and in the erasure itself: no child height is above 254, so the `uint8_t` cast never truncates |
| `AvlContainer.AvlTree.RefreshHeight` | include/castle/container/avl_tree.hpp:956-961 | in the walk and in rotations the stored height becomes the exact height |
| `AvlContainer.AvlTree.AdoptLeft` | include/castle/container/avl_tree.hpp:1112-1114 | the successor takes over the left subtree and stores one more than the greater height below it; those heights are the old ones, at most 91 |
| `AvlContainer.AvlTree.Transplant` | include/castle/container/avl_tree.hpp:969-987 | puts a subtree where a node hung and leaves every other link as it was |
| `AvlContainer.AvlTree.RotateLeft` | include/castle/container/avl_tree.hpp:993-1018 | the pool represents the rotated tree at the same place, heights exact, entries unmoved |
| `AvlContainer.AvlTree.RotateRight` | include/castle/container/avl_tree.hpp:1024-1049 | likewise to the right |
| `AvlContainer.AvlTree.RepairNode` | include/castle/container/avl_tree.hpp:1055-1075 | one turn of the loop makes of a node what `Balance` makes of it, including both double rotations |
| `AvlContainer.AvlTree.Rebalance` | include/castle/container/avl_tree.hpp:1055-1075 | the loop computes `RebalanceUp` on the pool although the heights above its position are stale |
| `AvlContainer.AvlTree.FindNode` | include/castle/container/avl_tree.hpp:890-910 | finds a node exactly when an equivalent key is stored |
| `AvlContainer.AvlTree.Contains` | include/castle/container/avl_tree.hpp:592-595 | true exactly when an equivalent key is stored |
| `AvlContainer.AvlTree.Mapped` | include/castle/container/avl_tree.hpp:732-738 | the value stored under the equivalent key, null exactly when there is none |
| `AvlContainer.AvlTree.Insert` | include/castle/container/avl_tree.hpp:762-814 | `already_exists` exactly when an equivalent key is stored, `full` exactly when none is and all N nodes are used, `ok` exactly when a lookup then finds the value and the size has grown by one; everything else is kept, in its slot |
| `AvlContainer.AvlTree.Minimum` | include/castle/container/avl_tree.hpp:917-928 | the leftmost node of a subtree |
| `AvlContainer.AvlTree.DetachSimple` | include/castle/container/avl_tree.hpp:1081-1117 | unlinks a node with at most one child |
| `AvlContainer.AvlTree.SpliceSuccessor` | include/castle/container/avl_tree.hpp:1081-1117 | takes the successor out of its place, adjacent or deep, and answers where the walk has to start |
| `AvlContainer.AvlTree.SubstituteSuccessor` | include/castle/container/avl_tree.hpp:1081-1117 | the successor takes over the place and the left subtree of the erased node |
| `AvlContainer.AvlTree.EraseNode` | include/castle/container/avl_tree.hpp:1081-1117 | the tree over exactly the other slots in the same order, valid again; the slot is free and no other entry moved |
| `AvlContainer.AvlTree.Erase` | include/castle/container/avl_tree.hpp:680-689 | `ok` exactly when an equivalent key was stored, else `not_found`; afterwards none is, and all other entries are kept, in their slots |
| `AvlContainer.AvlTree.EraseAt` | include/castle/container/avl_tree.hpp:698-707 | answers the node of the next key although it was computed before the relinking; null erases nothing |
| `AvlContainer.AvlTree.Clear` | include/castle/container/avl_tree.hpp:713-724 | ends with the empty tree and all slots on the free list |
| `AvlContainer.AvlTree.Successor` | include/castle/container/avl_tree.hpp:233-259 | leftmost node of the right subtree, or the end of the upward climb |
| `AvlContainer.AvlTree.Next` | include/castle/container/avl_tree.hpp:143-147 | the next slot in order; null stays null |
| `AvlContainer.AvlTree.Previous` | include/castle/container/avl_tree.hpp:164-168 | the previous slot in order; null stays null |
| `AvlContainer.AvlTree.ForthAndBack` | include/castle/container/avl_tree.hpp:143-168 | `++` and then `--` is back at the start wherever there is a next entry |
| `AvlContainer.AvlTree.BackAndForth` | include/castle/container/avl_tree.hpp:143-168 | `--` and then `++` is back at the start wherever there is a previous entry |
| `AvlContainer.AvlTree.Begin` | include/castle/container/avl_tree.hpp:484 | the first slot in order |
| `AvlContainer.AvlTree.InOrderWalk` | include/castle/container/avl_tree.hpp:233-259 | repeated `++` from `begin()` visits every entry once in strictly ascending key order |
| `AvlContainer.AvlTree.LowerBound` | include/castle/container/avl_tree.hpp:604-622 | the first node in order whose key is not less; all before it are less |
| `AvlContainer.AvlTree.UpperBound` | include/castle/container/avl_tree.hpp:642-660 | the first node in order whose key is greater; none before it is |
| `AvlContainer.AvlTree.OrderedTree` | include/castle/container/avl_tree.hpp:762-814 | in every valid state the keys along the tree strictly ascend and their number is `size_` |
| `BoundedMap.ErasedKey` | include/castle/container/avl_tree.hpp:680-689 | removing the one stored equivalent key is what erasing `key` means |
| `BoundedMap.InsertMeans` | include/castle/container/avl_tree.hpp:762-814 | bounded-map insertion in terms of lookups: which status when, what is found afterwards, what is kept |
| `BoundedMap.EraseMeans` | include/castle/container/avl_tree.hpp:680-689 | bounded-map erasure in terms of lookups: `ok` exactly for a stored key, which is then gone; all else is kept |
| `BoundedMap.InsertOrAssignMeans` | include/castle/container/hash_table.hpp:429-438 | only `ok` or `full`, the latter exactly for an absent key in a full map; after `ok` the value is found, under the stored key if there was one |
| `BoundedMap.StepMeans` | include/castle/container/avl_tree.hpp:592-814 | every answer means what it says about the map before and after the operation |
| `BoundedMap.RunMeans` | include/castle/container/avl_tree.hpp:592-814 | so does every answer of every run, for one sequence of maps that starts with the given one |
| `BoundedMap.RunDependsOnRelation` | include/castle/container/avl_tree.hpp:762-814 | the answers to a run depend only on which keys count as the same |
| `HashContainer.ProbedOutAbsent` | include/castle/container/hash_table.hpp:632-649 | a probe that reaches a never-used slot, or goes all the way round, proves the key absent |
| `HashContainer.PackedIsFull` | include/castle/container/hash_table.hpp:569-614 | a probe that met only occupied slots all the way round has seen all of them |
| `HashContainer.SoundInsert` | include/castle/container/hash_table.hpp:569-614 | filling the first tombstone or empty slot of the probe keeps the probe chains, unique keys, contents and count |
| `HashContainer.SoundErase` | include/castle/container/hash_table.hpp:527-538 | leaving a tombstone keeps the probe chains and removes exactly that entry |
| `HashContainer.SoundAssign` | include/castle/container/hash_table.hpp:429-438 | overwriting a value in place keeps the invariant and changes only that value |
| `HashContainer.HashTable.constructor` | include/castle/container/hash_table.hpp:249-253 | a new table is empty and valid |
| `HashContainer.HashTable.FindIndex` | include/castle/container/hash_table.hpp:632-649 | answers `N` exactly when the key is not in the map |
| `HashContainer.HashTable.FindTarget` | include/castle/container/hash_table.hpp:569-614 | the insertion probe: key found, or the first slot of the probe that is not occupied, or proof that all N slots are occupied |
| `HashContainer.HashTable.Insert` | include/castle/container/hash_table.hpp:569-614 | `already_exists` exactly when the key is stored, `full` exactly when it is not and all N slots are occupied, never because of tombstones; `ok` exactly when a lookup then finds the value and the size has grown by one; the entry goes into the first slot of the probe that is not occupied |
| `HashContainer.HashTable.Erase` | include/castle/container/hash_table.hpp:527-538 | `ok` exactly when the key was stored, else `not_found`; afterwards it is not, and all other entries are kept, in their slots |
| `HashContainer.HashTable.InsertOrAssign` | include/castle/container/hash_table.hpp:429-438 | `full` exactly when the key is absent and all slots are occupied, else `ok` and a lookup finds the value; an existing key keeps its stored key, all other entries are kept |
| `HashContainer.HashTable.Clear` | include/castle/container/hash_table.hpp:544-555 | empty map, every slot never-used again |
| `HashContainer.HashTable.Contains` | include/castle/container/hash_table.hpp:487-490 | true exactly when the key is in the map |
| `HashContainer.HashTable.Get` | include/castle/container/hash_table.hpp:498-504 | the value under the same key, null exactly when there is none |
| `HashContainer.HashTable.FirstOccupied` | include/castle/container/hash_table.hpp:655-665 | the first occupied slot, or N |
| `HashContainer.HashTable.AdvanceIndex` | include/castle/container/hash_table.hpp:671-682 | the next occupied slot, or N; nothing happens at the end |
| `HashContainer.HashTable.Walk` | include/castle/container/hash_table.hpp:119-126 | iteration visits every entry of the map once, in slot order, and as many as `size_` |
| `HashContainer.OccupiedBelowIs` | include/castle/container/hash_table.hpp:655-682 | that enumeration ascends, holds exactly the occupied slots and is as long as the entry count |
| `Agreement.RunBoth` | include/castle/container/hash_table.hpp:527-614 | for every sequence of insert, erase and contains, tree and table of the same capacity give identical answers, those of the bounded map |
| `Agreement.RunTree` | include/castle/container/avl_tree.hpp:592-814 | from any valid tree the answers to a run are those of the bounded map |
| `Agreement.RunTable` | include/castle/container/hash_table.hpp:487-614 | from any valid table the answers to a run are those of the bounded map |
| `HeapSort.SiftDown` | include/castle/algorithm/algorithm.hpp:100-123 | restores heap order from `root` on, permuting only the first `count` elements |
| `HeapSort.SettleLast` | include/castle/algorithm/algorithm.hpp:1136-1140 | one turn of the second phase: prefix a heap, suffix sorted and not before any prefix element |
| `HeapSort.Sort` | include/castle/algorithm/algorithm.hpp:1114-1141 | the result is ordered under any strict weak order and a permutation of the input |
| `HeapOrder.RootIsTop` | include/castle/container/heap.hpp:434-456 | no element of a heap has higher priority than the root |
| `HeapOrder.DownStep` | include/castle/container/heap.hpp:434-456 | swapping with the better child moves the only possible violation to that child |
| `HeapOrder.UpStep` | include/castle/container/heap.hpp:416-428 | swapping with the parent moves the only possible violation to the parent |
| `HeapContainer.PluggedHigh` | include/castle/container/heap.hpp:259-285 | when the element moved into the gap beats its parent, sifting up alone suffices |
| `HeapContainer.PluggedLow` | include/castle/container/heap.hpp:259-285 | when it does not, sifting down alone suffices |
| `HeapContainer.Heap.constructor` | include/castle/container/heap.hpp:75 | a new heap is empty and valid |
| `HeapContainer.Heap.Top` | include/castle/container/heap.hpp:141 | an element such that none has higher priority |
| `HeapContainer.Heap.Push` | include/castle/container/heap.hpp:156-167 | adds one occurrence, or `full` and no change |
| `HeapContainer.Heap.Pop` | include/castle/container/heap.hpp:231-250 | removes one occurrence of the top, or `empty` and no change |
| `HeapContainer.Heap.RemoveAt` | include/castle/container/heap.hpp:259-285 | removes exactly the element at the index and restores heap order, or `out_of_range` and no change |
| `HeapContainer.Heap.ReplaceTop` | include/castle/container/heap.hpp:310-319 | exchanges the top for the value and restores heap order, or `empty` and no change |
| `HeapContainer.Heap.Drain` | include/castle/container/heap.hpp:231-250 | popping until empty yields a permutation of the contents in order of priority |
| `HeapContainer.Heap.SiftUp` | include/castle/container/heap.hpp:416-428 | restores heap order when one element may have to rise; contents unchanged |
| `HeapContainer.Heap.SiftDown` | include/castle/container/heap.hpp:434-456 | restores heap order when one element may have to sink; contents unchanged |
| `HeapContainer.Heap.Clear` | include/castle/container/heap.hpp:325-332 | empty |
| `ListContainer.NothingLost` | include/castle/container/forward_list.hpp:621-662 | in every valid state each of the N nodes is on exactly one of the live and the free chain |
| `ListContainer.Inserted` | include/castle/container/forward_list.hpp:452-473 | linking in the first free node inserts at that position and keeps both chains sound |
| `ListContainer.Deleted` | include/castle/container/forward_list.hpp:482-502 | unlinking a node deletes that position and keeps both chains sound |
| `ListContainer.AllTurned` | include/castle/container/forward_list.hpp:538-551 | when all links are turned the chain runs through the same nodes backwards |
| `ListContainer.SurvivorElements` | include/castle/container/forward_list.hpp:510-532 | the elements of the surviving nodes are the old elements without the value |
| `ListContainer.WithoutCounts` | include/castle/container/forward_list.hpp:510-532 | what is removed is exactly the occurrences of the value |
| `ListContainer.WithoutParts` | include/castle/container/forward_list.hpp:510-532 | removal goes part by part, so what is left keeps its order |
| `ListContainer.BackwardsParts` | include/castle/container/forward_list.hpp:538-551 | reversal exchanges the parts of a sequence, and twice does nothing |
| `ListContainer.InsertDelete` | include/castle/container/forward_list.hpp:452-502 | what is inserted is found at its position, and deleting there gives back what was |
| `ListContainer.ForwardList.constructor` | include/castle/container/forward_list.hpp:253-256 | a new list is empty and valid |
| `ListContainer.ForwardList.FromList` | include/castle/container/forward_list.hpp:265-279 | holds the source elements in order, as many as fit |
| `ListContainer.ForwardList.InitialisePool` | include/castle/container/forward_list.hpp:652-662 | all nodes free, the list empty |
| `ListContainer.ForwardList.AllocateNode` | include/castle/container/forward_list.hpp:621-631 | takes the first free node, or answers null |
| `ListContainer.ForwardList.ReleaseNode` | include/castle/container/forward_list.hpp:637-646 | destroys the element and pushes the node onto the free chain |
| `ListContainer.ForwardList.PopFront` | include/castle/container/forward_list.hpp:430-441 | drops the first element, or `empty` |
| `ListContainer.ForwardList.EmplaceAfter` | include/castle/container/forward_list.hpp:452-473 | sequence insertion after the iterator; `out_of_range` before `full`; no node moves |
| `ListContainer.ForwardList.EraseAfter` | include/castle/container/forward_list.hpp:482-502 | sequence deletion after the iterator, answering the node that followed; nothing at the end |
| `ListContainer.ForwardList.Remove` | include/castle/container/forward_list.hpp:510-532 | sequence filter; the survivors keep their nodes and order |
| `ListContainer.ForwardList.Reverse` | include/castle/container/forward_list.hpp:538-551 | sequence reversal; the nodes keep their elements |
| `ListContainer.ForwardList.Clear` | include/castle/container/forward_list.hpp:557-568 | empty list, all nodes free |
| `ListContainer.ForwardList.Find` | include/castle/container/forward_list.hpp:576-586 | the first node with that element, end exactly when there is none |
| `OncePolicy.Once.Execute` | include/castle/callbacks/exec_policy.hpp:347-358 | runs the callback exactly when the latch was open, and closes it |
| `OncePolicy.RunsCounted` | include/castle/callbacks/exec_policy.hpp:347-376 | in every interleaving, runs begun or due equal the resets that found the latch closed plus one if it is closed now; at most 1 plus resets |
| `OncePolicy.LatchHolds` | include/castle/callbacks/exec_policy.hpp:347-376 | without a reset a closed latch stays closed and no further run becomes due |
| `OncePolicy.DueCallsBegin` | include/castle/callbacks/exec_policy.hpp:347-358 | from any state, once every thread has had its turn to call, in any order, none is due, and exactly those that were have begun their callbacks, whatever was reset meanwhile |
| `OncePolicy.ExecuteAlone` | include/castle/callbacks/exec_policy.hpp:347-376 | an undisturbed thread does what the sequential methods say, whatever other threads are about to do |
| `ArmedWindowPolicy.ArmedWindow.Execute` | include/castle/callbacks/exec_policy.hpp:468-492 | runs exactly when armed and before the deadline; latches fired or expired otherwise |
| `ArmedWindowPolicy.ArmedWindow.Expire` | include/castle/callbacks/exec_policy.hpp:530-534 | expires only an armed policy |
| `ArmedWindowPolicy.ArmingsCounted` | include/castle/callbacks/exec_policy.hpp:468-534 | in every interleaving each arming comes to exactly one end: a run begun or due, an expiry, or still armed; runs at most 1 plus armings |
| `ArmedWindowPolicy.AtMostOncePerArming` | include/castle/callbacks/exec_policy.hpp:468-534 | from any state, until the latch is stored again, at most one more run becomes due and fired or expired is never left |
| `ArmedWindowPolicy.DeadlineInForceIff` | include/castle/callbacks/exec_policy.hpp:468-534 | under any clock, all threads act on the deadline in force throughout a run exactly when every step leaves the deadline alone or meets no thread between its clock reading and its exchange |
| `ArmedWindowPolicy.RewriteSafeIff` | include/castle/callbacks/exec_policy.hpp:507-525 | a new deadline is right for every time and window it may turn out to have exactly while no thread is between its clock reading and its exchange |
| `ArmedWindowPolicy.FiresBeforeDeadline` | include/castle/callbacks/exec_policy.hpp:468-534 | with a clock that does not run backwards and positive windows, every callback run is admitted before the deadline in force at its exchange, even when `reset` and `rearm` come in between |
| `ArmedWindowPolicy.DecidesRightIff` | include/castle/callbacks/exec_policy.hpp:468-534 | in such runs all threads decide right by the deadline in force exactly when no deadline is written while a thread is about to expire |
| `ArmedWindowPolicy.BeganArmed` | include/castle/callbacks/exec_policy.hpp:468-492 | in every interleaving, a thread between its load and its callback began that very call with a load that saw the latch armed |
| `ArmedWindowPolicy.RunsAdmitted` | include/castle/callbacks/exec_policy.hpp:468-492 | in every interleaving, every callback run was begun by a thread that saw the latch armed, then read a time before the deadline, then found the latch armed at its exchange, under the deadline recorded |
| `ArmedWindowPolicy.DueCallsBegin` | include/castle/callbacks/exec_policy.hpp:488-492 | from any state, once every thread has had its turn to call, in any order, none is due, and exactly the runs that were due have begun, with their readings |
| `ArmedWindowPolicy.FinishAlone` | include/castle/callbacks/exec_policy.hpp:468-525 | from any place in a call and any state, disturbed by other threads or not, a thread left alone ends the call as the source does |
| `ArmedWindowPolicy.RearmExpiredAtOnce` | include/castle/callbacks/exec_policy.hpp:519-525 | an increasing clock and a `rearm` that overtakes an expiring thread: the new window is expired at once |
| `ArmedWindowPolicy.FiresPastDeadline` | include/castle/callbacks/exec_policy.hpp:519-525 | a clock that runs backwards: a thread fires past the deadline in force |
| `ArmedWindowPolicy.ExecuteAlone` | include/castle/callbacks/exec_policy.hpp:468-492 | from any state, an undisturbed thread does what the sequential method says |
| `ArmedWindowPolicy.OthersAlone` | include/castle/callbacks/exec_policy.hpp:507-534 | the same for `reset`, `rearm` and `expire` |
| `EveryNPolicy.EveryN.constructor` | include/castle/callbacks/exec_policy.hpp:624-630 | an interval of zero becomes one; the counter starts at zero |
| `EveryNPolicy.EveryN.Execute` | include/castle/callbacks/exec_policy.hpp:636-648 | runs on the n-th call since the last run; the counter stays below n |
| `EveryNPolicy.EveryN.ExecuteMany` | include/castle/callbacks/exec_policy.hpp:636-648 | after m calls exactly floor((c+m)/n) runs, and the counter is the remainder |
| `EveryNPolicy.RunsWithinCalls` | include/castle/callbacks/exec_policy.hpp:636-648 | in every interleaving of any number of calls, n times the runs is at most the calls, when n divides the number of counter values or the threads are fewer than that number over n |
| `EveryNPolicy.CannotWrap` | include/castle/callbacks/exec_policy.hpp:636-648 | that few threads cannot hold the counter back long enough for it to wrap |
| `EveryNPolicy.RunsWithinFewCalls` | include/castle/callbacks/exec_policy.hpp:636-648 | with any number of threads the bound holds for fewer calls than the counter has values |
| `EveryNPolicy.WrapRunsTooOften` | include/castle/callbacks/exec_policy.hpp:636-648 | otherwise threads that call until they hit and stop there wrap the counter off a multiple of n and break the bound |
| `EveryNPolicy.RunsWithinCallsIff` | include/castle/callbacks/exec_policy.hpp:636-648 | for each number of threads: the bound holds in all runs exactly when n divides the number of counter values or threads times n is below it |
| `EveryNPolicy.QuietAfterReset` | include/castle/callbacks/exec_policy.hpp:636-666 | a reset zeroes the counter whatever it has got to and whatever other threads are about to do, and no run becomes due before n more calls are counted, in any interleaving |
| `EveryNPolicy.EveryNthHits` | include/castle/callbacks/exec_policy.hpp:636-648 | while nobody zeroes the counter, d calls from zero on any threads make exactly floor(d/n) hits |
| `EveryNPolicy.DueCallsBegin` | include/castle/callbacks/exec_policy.hpp:646-648 | from any state, once every thread has had its turn to call, in any order, none is due, and exactly those that were have begun their callbacks |
| `EveryNPolicy.FinishAlone` | include/castle/callbacks/exec_policy.hpp:643-648 | from any state, a thread left alone ends its call: a hit zeroes the counter and runs |
| `EveryNPolicy.ExecuteAlone` | include/castle/callbacks/exec_policy.hpp:636-648 | from any state, an undisturbed thread counts one call and runs exactly when the value counted is a multiple of n; below n that is what the sequential method says |
| `PeriodicPolicy.ElapsedBetween` | include/castle/callbacks/exec_policy.hpp:1038-1059 | `Elapsed` counts the deadlines start + period, start + 2 periods, ... that a time has reached |
| `PeriodicPolicy.NeverCaughtUp` | include/castle/callbacks/exec_policy.hpp:1047-1051 | with a period that is not positive no number of turns of the loop gets past a time once reached |
| `PeriodicPolicy.Periodic.constructor` | include/castle/callbacks/exec_policy.hpp:1023-1030 | the first deadline is one period after the start |
| `PeriodicPolicy.Periodic.Poll` | include/castle/callbacks/exec_policy.hpp:1037-1059 | catches up: total runs equal the periods elapsed up to the latest time seen, the next deadline is start + (runs + 1) periods, and the loop ends |
| `PeriodicPolicy.Periodic.PollAll` | include/castle/callbacks/exec_policy.hpp:1037-1059 | for any clock readings, also decreasing ones, the runs are the periods elapsed up to the latest reading |
| `PeriodicPolicy.Periodic.Reset` | include/castle/callbacks/exec_policy.hpp:1084-1088 | the schedule starts again from now |
| `CallbackRegistry.Issued` | include/castle/callbacks/delegate_registry.hpp:159-197 | filling an empty slot issues a registration never issued before and keeps the protocol |
| `CallbackRegistry.Ended` | include/castle/callbacks/delegate_registry.hpp:206-230 | emptying a slot removes the registration in force, once, and advances the generation |
| `CallbackRegistry.GenerationTells` | include/castle/callbacks/delegate_registry.hpp:318-322 | generations agree exactly when the deactivations in between are a multiple of 2^32 |
| `CallbackRegistry.Registry.constructor` | include/castle/callbacks/delegate_registry.hpp:116-116 | all slots empty, generation zero |
| `CallbackRegistry.Registry.Subscribe` | include/castle/callbacks/delegate_registry.hpp:159-197 | first empty slot; `invalid_callback`, `full` or `ok` with a fresh registration |
| `CallbackRegistry.Registry.UnsubscribeSlot` | include/castle/callbacks/delegate_registry.hpp:206-230 | succeeds exactly for an occupied slot of that generation, and removes its registration |
| `CallbackRegistry.ClearedSound` | include/castle/callbacks/delegate_registry.hpp:268-282 | emptying every occupied slot removes every registration still active |
| `CallbackRegistry.Registry.Clear` | include/castle/callbacks/delegate_registry.hpp:268-282 | every occupied slot is emptied and gets its next generation; every active registration is removed |
| `CallbackRegistry.Registry.Invoke` | include/castle/callbacks/delegate_registry.hpp:239-250 | calls the callbacks of exactly the active registrations, each once, in ascending slot order; as many as `active_count_` |
| `CallbackRegistry.Registry.HandleParts` | include/castle/callbacks/delegate_registry.hpp:206-230 | a registration is active exactly while its slot was not deactivated since |
| `CallbackRegistry.Subscribe` | include/castle/callbacks/function_registry.hpp:155-194 | a handle that names the new registration, which is added to those issued before, or a null handle and no change |
| `CallbackRegistry.Subscription.Unsubscribe` | include/castle/callbacks/subscription.hpp:175-188 | the whole new state; succeeds exactly when the slot is occupied and carries the generation; for an issued handle the answer is whether its registration is active, except exactly when the slot is occupied again after a positive multiple of 2^32 deactivations |
| `CallbackRegistry.WearOut` | include/castle/callbacks/delegate_registry.hpp:206-230 | 2^32 reuses of a slot bring its generation back |
| `CallbackRegistry.StaleHandle` | include/castle/callbacks/delegate_registry.hpp:318-322 | after 2^32 reuses the handle of a removed registration removes another one that is active |
| `RegistryRuns.EndedForGood` | include/castle/callbacks/subscription.hpp:175-201 | in the ledger, where every registration has an id of its own, one that has ended stays so, whatever handles are left |
| `RegistryRuns.StaysBooked` | include/castle/callbacks/delegate_registry.hpp:159-282 | in every run of the ledger each operation gets one answer, no more are active than there is room for, and ids are never given out twice |
| `RegistryRuns.SubscriptionEndsOnce` | include/castle/callbacks/delegate_registry.hpp:159-230 | in the ledger a subscription is refused exactly for want of a callback or of room; otherwise it adds one, and its handle ends it, once |
| `RegistryRuns.CopiesShare` | include/castle/callbacks/subscription.hpp:175-201 | in the ledger a copy answers as the handle it was made from, also after that is reset, and what one ends is ended for the other |
| `RegistryRuns.OthersUnaffected` | include/castle/callbacks/delegate_registry.hpp:206-282 | in the ledger ending one registration leaves the others, and a clear ends all |
| `RegistryRuns.UnsubscribeAgrees` | include/castle/callbacks/delegate_registry.hpp:206-230 | an occupied slot has taken two operations per deactivation and one more, so within 2^33 steps a handle matches its slot exactly while its registration is active |
| `RegistryRuns.ShortRunsAgree` | include/castle/callbacks/delegate_registry.hpp:159-282 | every run of at most 2^33 + 1 subscribe, copy, unsubscribe, reset, clear and size operations gets the answers of the ledger |
| `RegistryRuns.ComeRoundDisagrees` | include/castle/callbacks/delegate_registry.hpp:206-230 | a run of 2^33 + 2 operations does not: the first handle removes the latest registration |
| `RegistryRuns.RunsAgreeIff` | include/castle/callbacks/delegate_registry.hpp:159-282 | slots and generations answer like the ledger in all runs up to a length exactly when that is at most 2^33 + 1, or there are no slots |
| `RegistryRuns.Ask` | include/castle/callbacks/subscription.hpp:99-208 | every operation on a real registry with real handles, copies included, is a step of the slot machine |
| `RegistryRuns.RunRegistry` | include/castle/callbacks/delegate_registry.hpp:159-282 | a new registry answers every run like the slot machine, and every short run like the ledger |
| `Ratio.GcdParts` | include/castle/math/gcd.hpp:36-39 | Euclid's algorithm yields a common divisor that is an integer combination of the arguments |
| `Ratio.GcdGreatest` | include/castle/math/gcd.hpp:36-39 | every common divisor divides it |
| `Ratio.LcmParts` | include/castle/math/lcm.hpp:34-47 | a positive multiple of both arguments |
| `Ratio.LcmTimesGcd` | include/castle/math/lcm.hpp:34-47 | lcm times gcd is the product of the arguments |
| `Ratio.ReducedParts` | include/castle/math/ratio.hpp:46-73 | the reduced ratio stands for the same fraction |
| `Ratio.ReducedInLowestTerms` | include/castle/math/ratio.hpp:46-73 | numerator and denominator of a ratio type are coprime |
| `Durations.CastTruncates` | include/castle/chrono/duration.hpp:418-433 | casting to a period truncates toward zero, negatives included |
| `Durations.CastExact` | include/castle/chrono/duration.hpp:418-433 | a cast to a period that divides the old one loses nothing |
| `Durations.CommonMultiple` | include/castle/chrono/duration.hpp:446-455 | both periods are whole multiples of the common period |
| `Durations.CommonPeriodGreatest` | include/castle/chrono/duration.hpp:446-455 | no longer period measures both |
| `Durations.CommonExact` | include/castle/chrono/duration.hpp:446-481 | casts to the common period are exact |
| `Durations.ComparesValues` | include/castle/chrono/duration.hpp:707-758 | `<` and `==` across periods agree with the order and equality of the lengths in seconds |
| `Durations.LessIsStrictWeakOrder` | include/castle/chrono/duration.hpp:748-758 | `<` orders durations of mixed periods transitively although every pair is compared in its own common period |
| `Durations.AddsValues` | include/castle/chrono/duration.hpp:528-562 | sums and differences across periods are exact, in the common period |
| `Durations.FloorGreatest` | include/castle/chrono/duration.hpp:826-833 | floor is the greatest tick not above the value |
| `Durations.CeilLeast` | include/castle/chrono/duration.hpp:844-851 | ceil is the least tick not below the value |
| `Durations.RoundChoice` | include/castle/chrono/duration.hpp:862-882 | below the midpoint the lower tick, above it the upper, at it the even one |
| `Durations.RoundNearest` | include/castle/chrono/duration.hpp:862-882 | no tick is nearer; of two equally near ones the even is taken |
| `Bits.LengthBetween` | include/castle/bit/bit_count.hpp:168-182 | bit length n means 2^(n-1) <= v < 2^n |
| `Bits.TrailingDivides` | include/castle/bit/bit_count.hpp:134-159 | trailing zeros give the exact power of two in v |
| `Bits.CountLeadingZeros` | include/castle/bit/bit_count.hpp:98-126 | the halving search counts width minus bit length, the width for zero |
| `Bits.CountTrailingZeros` | include/castle/bit/bit_count.hpp:134-159 | the halving search finds the lowest set bit, the width for zero |
| `Bits.BitWidth` | include/castle/bit/bit_count.hpp:168-182 | the bit length |
| `Bits.Log2Floor` | include/castle/bit/bit_count.hpp:191-205 | 2^n <= v < 2^(n+1), zero for zero |
| `Bits.ShrDivides` | include/castle/bit/bit_math.hpp:176-195 | the shift divides by a power of two, rounding down, and brings that bit to the bottom |
| `Bits.SmearedAll` | include/castle/bit/bit_math.hpp:176-195 | once the shifts cover the length, all bits up to the highest are set |
| `Bits.Smear` | include/castle/bit/bit_math.hpp:189-192 | the smear loop yields 2^length - 1 |
| `Bits.PreviousPowerOfTwo` | include/castle/bit/bit_math.hpp:176-195 | 2 to the floor of the logarithm, the greatest power not above v; zero for zero |
| `Bits.NextPowerOfTwo` | include/castle/bit/bit_math.hpp:116-136 | the least power of two not below v exactly when v <= 2^(width-1); otherwise the result wraps to zero |
| `Bits.AndBit` | include/castle/bit/bit_math.hpp:86-97 | the `&` of the test acts bit by bit |
| `Bits.IsPowerOfTwoIff` | include/castle/bit/bit_math.hpp:86-97 | the test accepts exactly the powers of two |

## Left out

- HashTable, AvlTree and Heap constructors from initializer lists: repeated insertion.
- `map.hpp`, `hash_map.hpp`, `hash_set.hpp`, `array.hpp`, `array_view.hpp`, `flags.hpp`: thin wrappers or single expressions.
- `ring_buffer.hpp`, `callback_dispatcher.hpp`: easy next to the parts modelled.
- `algorithm.hpp` apart from `heap_sift_down` and `sort`: searches, `remove_if`, `unique` and the simple loops would only add easy members; iterator ranges are whole arrays.
- `exec_policy.hpp` apart from `once`, `armed_window`, `every_n` and `periodic`: `throttle` and `on_change` are single comparisons.
- `delegate.hpp`, `function.hpp`: type erasure and storage of callables; a callback is an opaque value, and the function registry's `active` flag is the presence of one; the two registries share one model.
- Object lifetime: construction, destruction, moved-from values, and references into containers passed back to them.
- AvlContainer.AvlTree.Clear: does not say how many elements the release loop visits before the pool is rebuilt, because the loop may stop at a released parent.
- PeriodicPolicy.Periodic.Poll: requires a positive period or a time before the deadline, because otherwise the catch-up loop does not end (`PeriodicPolicy.NeverCaughtUp`).
- PeriodicPolicy.Periodic.Poll: is one atomic step, as the lock makes it; its callbacks run after it.
- CallbackRegistry.Registry.Invoke: does not model callbacks that change the registry while it is being walked.
- Weak memory orders, and races on plain members that the headers leave to the caller: atomics are sequentially consistent steps.
- Overflow of duration arithmetic and of tick counts: counts are unbounded integers, as the headers' limits assume; compound assignments, `abs` and `time_point` are direct lifts.
- Bits: signed operands are their unsigned images; `popcount`, `reverse_bits`, rotations and masks are not modelled.
- Platform clocks, mutexes and hooks: foreign calls.
- Samples, benchmarks and the web page: no logic to prove.

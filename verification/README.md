# CustomSTL: containers, locks and exact arithmetic, verified

CustomSTL re-implements the C++20 standard library by hand. This project models its algorithms with real mutable
state in Dafny and proves what they promise: the red-black tree with parent links under `map` and `set`, the linked
`list` with its in-place merge sort, the hash table that keeps its elements in one list, the multi-lock back-off
algorithm, the timed mutexes and the general condition variable, the circular block map of `deque`, the heap of
`priority_queue`, the words of `bitset`, and the integer arithmetic of `gcd`, `lcm` and `ratio`.

## How the model is built

- **Linked nodes.** A pointer is a value of a type parameter, the nodes a container owns are a field `mem` or
  `links`: a finite map from addresses to cells, which the methods update one field at a time as the source does.
  Freeing a node removes its key, so a read through a freed node is a proof obligation that fails. The address the
  allocator returns is a parameter. Next to the memory a class keeps a ghost sequence of its nodes (and, for the
  tree, each node's span of in-order positions and its black height); the class invariant ties the two together and
  the contracts speak about the sequence. Lists and hash tables of one element type share one memory, and their
  contracts say that an operation frees what it takes out and changes no cell it does not own. The sentinel test
  `_IsNil` is the comparison with the head node, which is the only node that has it set.
- **Threads.** The locking code is a step system: a state holds every thread's program point and the fields of the
  object, a step is one atomic operation on a mutex or condition variable, and the theorems are about every state of
  every run of any number of threads under any interleaving, and about every call from the step that begins it to the
  step that ends it. Spurious wake-ups and timeouts may happen at any time.
- **Integers.** Machine words are naturals below 2^w with the wrap-around of each operator written out; the width is
  a parameter where the source is generic and 64 bits in `ratio`. Sizes and offsets of containers are unbounded.

| file | source | content |
|---|---|---|
| TreeMemory, RedBlack, FixUp, Transplant, Ordering, SearchTree, TreeLaws | x_search_tree.h | links, colours, the fix-up steps, exchanging nodes, keys, the class, what the invariants mean |
| ListMemory, Merging, Stability, Filtering, List, MergeSteps | c_list.h | rings, merging and sorting as sequences, the order of equivalent elements, reversing and filtering, the class, merging test by test |
| Buckets, HashTable | x_hash_table.h | runs of nodes per bucket, the class |
| LockAlgorithm, LockOutcome | x_lock.h | `lock` and `try_lock` on several mutexes, what a whole call of them does |
| TimedMutex, MutexHistory | c_condition_variable.h | the two timed mutexes, acquisitions counted from the run and what whole calls do |
| ConditionVariableAny, NotifyHistory | c_condition_variable.h | the general condition variable, what becomes of waits and notifications |
| BlockMap, Deque | c_deque.h | the circular table of blocks, the class |
| PriorityQueue | c_queue.h | the heap and its class |
| Words, Bits, BitBlocks, Bitset | c_bit.h, c_bitset.h | words, bit counting, sequences of words, the class |
| Division, Divisibility, Numeric, Ratio | c_numeric.h, c_ratio.h | division facts, divisors, `gcd` and `lcm`, rationals |
| Sequences, Options | all of them | inserting into and removing from a sequence, distinct nodes, values that may be missing |

## Model

| member | source | states |
|---|---|---|
| SearchTree.SearchTree.constructor | code/stl/x_search_tree.h:832-840 | an empty tree is a black head linked to itself, and holds no key |
| TreeMemory.RotateTree | code/stl/x_search_tree.h:477-515 | a rotation with its parent links set keeps every link consistent and the in-order sequence as it was |
| SearchTree.SearchTree.RotateLeft | code/stl/x_search_tree.h:477-495 | the eight assignments of the left rotation are the rotation of the memory, root and sentinel cases included |
| SearchTree.SearchTree.RotateRight | code/stl/x_search_tree.h:497-515 | the mirror image for the right rotation |
| RedBlack.PromoteAll | code/stl/x_search_tree.h:645-647 | recolouring and rotating above a red child keeps link consistency and every colour law away from the node repaired; the same step ends insertion and serves both sibling cases of erasure |
| RedBlack.FlipAll | code/stl/x_search_tree.h:651-654 | pushing redness up past a red uncle keeps all black heights equal and leaves at most the grandparent in violation |
| RedBlack.SinkAll | code/stl/x_search_tree.h:720-721 | painting the sibling red moves the missing black one level up and nowhere else |
| RedBlack.SettleAll | code/stl/x_search_tree.h:733-736 | the last rotation of erasure restores the missing black completely |
| FixUp.InsertFlip | code/stl/x_search_tree.h:649-655 | insertion with a red uncle keeps the loop invariant one level up, in a strictly larger subtree |
| FixUp.InsertTurn | code/stl/x_search_tree.h:639-643 | the triangle case is turned into the line case without losing the invariant |
| FixUp.InsertLine | code/stl/x_search_tree.h:645-648 | the line case leaves a tree that needs no further repair |
| FixUp.InsertStart | code/stl/x_search_tree.h:602-626 | hanging a red leaf at a free child place starts the insertion invariant, with the new node at exactly that in-order position |
| FixUp.EraseRedSibling | code/stl/x_search_tree.h:710-716 | a red sibling is rotated away and the missing black stays where it was |
| FixUp.EraseSink | code/stl/x_search_tree.h:718-722 | with two black nephews the missing black moves to the parent, whose subtree is strictly larger |
| FixUp.EraseInner | code/stl/x_search_tree.h:725-731 | a red inner nephew is turned into a red outer one |
| FixUp.EraseOuter | code/stl/x_search_tree.h:733-737 | a red outer nephew ends the repair |
| FixUp.EraseStart | code/stl/x_search_tree.h:700-703 | a black leaf that will be cut off is the one place where a black is missing |
| FixUp.EraseDetach | code/stl/x_search_tree.h:871-881 | cutting the prepared leaf off gives a red-black tree whose order is the old one without it |
| FixUp.SwapRedBlack | code/stl/x_search_tree.h:783-790 | exchanging two nodes, colours included, keeps every red-black law and exchanges just their positions |
| FixUp.SetEndsRedBlack | code/stl/x_search_tree.h:779-780 | changing the head links to the ends does not disturb the tree |
| Transplant.CanSwapInside | code/stl/x_search_tree.h:792-830 | whenever one node lies in the subtree of the other, parent and child or not, each step of the exchange reads and writes live cells only |
| Transplant.SwapSteps | code/stl/x_search_tree.h:783-830 | the exchange of parents, then of left and right children, then of colours, in this order, gives exactly the memory with the two nodes exchanged, also when they are parent and child |
| SearchTree.SearchTree.SwapParents | code/stl/x_search_tree.h:792-812 | the assignments of `_swap_parents` are its specification; the branch for a second node at the root cannot be reached |
| SearchTree.SearchTree.SwapLeftChildren | code/stl/x_search_tree.h:814-821 | the left half of `_swap_children` is its specification |
| SearchTree.SearchTree.SwapRightChildren | code/stl/x_search_tree.h:823-829 | the right half of `_swap_children` is its specification |
| SearchTree.SearchTree.ExchangeNodes | code/stl/x_search_tree.h:787-789 | the three calls together leave each cell with the two addresses exchanged in it |
| SearchTree.SearchTree.Transplant | code/stl/x_search_tree.h:783-790 | two nodes, one below the other, change places: the tree stays red-black, the order and the positions are exchanged at exactly those two nodes |
| SearchTree.SearchTree.InsertFixUp | code/stl/x_search_tree.h:628-683 | the fix-up loop ends and leaves a red-black tree of the same nodes in the same order with the head links to the ends untouched |
| SearchTree.SearchTree.InsertFixLeft | code/stl/x_search_tree.h:634-656 | one round keeps the invariant and, if it goes on, climbs to a strictly larger subtree |
| SearchTree.SearchTree.InsertFixRight | code/stl/x_search_tree.h:657-679 | the mirror image |
| SearchTree.SearchTree.Insert | code/stl/x_search_tree.h:602-683 | from any valid tree: red-black laws, links and both end links hold again, and the order is the old one with the new node at the place of the slot |
| SearchTree.SearchTree.FindInTree | code/stl/x_search_tree.h:557-574 | finds the node of the key, and the head exactly when the key is absent |
| SearchTree.SearchTree.FindInsertionSlot | code/stl/x_search_tree.h:576-600 | the free child place found is where the key belongs: all keys before it are less, all after it greater |
| SearchTree.SearchTree.Emplace | code/stl/x_search_tree.h:305-322 | an equal key is found and nothing changes; otherwise the sorted key sequence gains exactly the new key at its place |
| SearchTree.SearchTree.InOrderSuccessor | code/stl/x_search_tree.h:548-555 | the neighbour chosen lies below the node, in a strictly smaller subtree, next to it in order on one side or the other |
| SearchTree.SearchTree.SinkToLeaf | code/stl/x_search_tree.h:692-697 | the loop of exchanges ends with the node a leaf, and the order of all the other nodes is what it was |
| SearchTree.SearchTree.EraseFixLeft | code/stl/x_search_tree.h:707-739 | one round keeps the missing black at one place and either settles it or climbs to a strictly larger subtree |
| SearchTree.SearchTree.EraseFixRight | code/stl/x_search_tree.h:740-772 | the mirror image |
| SearchTree.SearchTree.EraseSettleLeft | code/stl/x_search_tree.h:723-738 | with a red nephew the loop may stop: the leaf can be cut off |
| SearchTree.SearchTree.EraseSettleRight | code/stl/x_search_tree.h:756-771 | the mirror image |
| SearchTree.SearchTree.Rebalance | code/stl/x_search_tree.h:699-776 | with the leaf still in the tree, afterwards it can be cut off without breaking any law |
| SearchTree.SearchTree.FreeCommonNode | code/stl/x_search_tree.h:863-881 | the leaf is unlinked from its parent or the head, its value destroyed and its cell freed |
| SearchTree.SearchTree.ResetEnds | code/stl/x_search_tree.h:779-780 | the head links lead to the least and the greatest node again |
| SearchTree.SearchTree.Destroy | code/stl/x_search_tree.h:685-781 | from any valid tree of at least two nodes: red-black laws, links and ends hold again and the order is the old one without the node |
| SearchTree.SearchTree.Erase | code/stl/x_search_tree.h:324-335 | the key sequence loses exactly the key, the node is freed, and the iterator returned is at the node of the least greater key or at the end, although the node may have moved |
| SearchTree.ResetReadsLiveNodes | code/stl/x_search_tree.h:778-780 | for every tree: recomputing the ends after the removal reads only live nodes if and only if the tree had at least two nodes |
| SearchTree.OnlyNodeDangles | code/stl/x_search_tree.h:778-780 | the concrete tree of one node after which the head still links to the node just freed |
| SearchTree.SearchTree.Leftmost | code/stl/x_search_tree.h:50-55 | the walk along left links ends at the first node of the subtree |
| SearchTree.SearchTree.Rightmost | code/stl/x_search_tree.h:57-62 | the walk along right links ends at its last node |
| SearchTree.SearchTree.Increment | code/stl/x_search_tree.h:89-106 | iterator `++` goes to the node next in order, and from the last to the end |
| SearchTree.SearchTree.Decrement | code/stl/x_search_tree.h:114-135 | iterator `--` goes to the node before, and from the end to the last |
| SearchTree.SearchTree.Traverse | code/stl/x_search_tree.h:89-106 | iterating with `++` from the head's left link until the head meets every key exactly once, in ascending order |
| SearchTree.SearchTree.TraverseBack | code/stl/x_search_tree.h:114-135 | iterating with `--` from the head to the head's left link meets the same keys in the opposite order |
| SearchTree.SameOrder | code/stl/x_search_tree.h:89-106 | the order determines the nodes of a tree and their positions |
| Ordering.InsertKeepsSorted | code/stl/x_search_tree.h:576-600 | a key put where it belongs keeps the keys sorted |
| Ordering.LessGoesLeft | code/stl/x_search_tree.h:567-568 | a key less than a node can only be before it |
| Ordering.GreaterGoesRight | code/stl/x_search_tree.h:569-570 | a key neither less nor equal can only be after it |
| TreeLaws.WalkIsOrder | code/stl/x_search_tree.h:89-106 | walking by child links alone from the root gives exactly the ghost order |
| TreeLaws.EqualBlackHeights | code/stl/x_search_tree.h:602-683 | any two paths from the root to a missing child have the same number of black nodes |
| TreeLaws.NoRedRed | code/stl/x_search_tree.h:602-683 | the root is black and no red node has a red child |
| ListMemory.SpliceRing | code/stl/c_list.h:630-647 | splicing a run of a ring in front of an earlier node of the same ring moves exactly that run, also when its ends touch the insertion point |
| ListMemory.TransferRings | code/stl/c_list.h:630-647 | splicing a run from one ring into another leaves two well-linked rings |
| ListMemory.LinkRing | code/stl/c_list.h:578-587 | linking a node before another inserts it there |
| ListMemory.UnlinkRing | code/stl/c_list.h:588-599 | unlinking a node removes it and closes the ring |
| List.List.constructor | code/stl/c_list.h:558-562 | a new list is a head linked to itself |
| List.List.Splice | code/stl/c_list.h:630-647 | the six assignments are the splice of the memory |
| Merging.InterleaveSorted | code/stl/c_list.h:649-679 | merging two sorted sequences gives a sorted one |
| Merging.InterleaveKeeps | code/stl/c_list.h:649-679 | merging keeps exactly the elements of both |
| Merging.InterleaveKeepsLeft | code/stl/c_list.h:649-679 | merging keeps the left elements in their order |
| Merging.InterleaveKeepsRight | code/stl/c_list.h:649-679 | merging keeps the right elements in their order |
| Merging.InterleaveStable | code/stl/c_list.h:649-679 | of equivalent elements the left ones come first |
| List.List.RunEnd | code/stl/c_list.h:657-661 | the run that goes before the first node ends where the source says |
| List.List.SkipLeft | code/stl/c_list.h:671-677 | the left nodes that stay are skipped, and none too many |
| List.List.MergeInternal | code/stl/c_list.h:649-679 | for any two adjacent ranges, sorted or not, overlapping in-list splices produce exactly the textbook merge, and no cell of another list changes |
| List.List.MoveRun | code/stl/c_list.h:666-667 | the run, if there is one, is spliced in front of the first node; no cell of another list changes |
| Merging.MidBlock | code/stl/c_list.h:681-700 | merging the block of a pending middle node into everything before it keeps each earlier block sorted |
| Merging.SortCombine | code/stl/c_list.h:695-697 | the stack-of-sorted-blocks invariant: after both halves and the merge from the list head, all of the prefix is sorted but for the heads still pending |
| List.List.SortRange | code/stl/c_list.h:681-700 | the recursion leaves the prefix a permutation, sorted but for the pending heads, the rest and all other lists untouched, and returns the position after it |
| List.List.Sort | code/stl/c_list.h:511-518 | the same nodes, sorted, in one well-linked ring, with the size unchanged, in the very order of the recursion; no cell of another list changes |
| Merging.SortIsNotStable | code/stl/c_list.h:681-700 | a list of three nodes in which sorting exchanges two equivalent ones |
| Merging.MergeAtPosition | code/stl/c_list.h:697-697 | the merge of a `_sort` call is from the list head to the end of its range, split where its middle node stands by then |
| Stability.OrderAcross | code/stl/c_list.h:649-679 | for sequences the left of which need not be sorted: a right element passes a left one just when something up to the left one is greater |
| Stability.SortArranges | code/stl/c_list.h:681-700 | for every range, whatever precedes it: the nodes up to its first keep their order, a later node of the range passes one of them just when a node up to that one is greater, and the later nodes end with nothing greater before them |
| Stability.PairExchanged | code/stl/c_list.h:681-700 | two equivalent nodes are exchanged if and only if some call of the recursion has a range that begins at the first and holds the second, and a node before the first is greater |
| Stability.SortIsStableIff | code/stl/c_list.h:681-700 | for every list: the sort keeps the order of all equivalent nodes if and only if it has no such pair, a condition on the input alone |
| List.List.Distance | code/stl/c_list.h:461-461 | counts the nodes between two positions |
| List.List.SpliceRange | code/stl/c_list.h:454-480 | moves a range of another list here; the same list is refused and nothing changes; no cell of a third list changes |
| List.List.Merge | code/stl/c_list.h:492-505 | into a non-empty list: the stable textbook merge of both node sequences, the other list empty, both rings well linked, third lists untouched |
| MergeSteps.MergeIntoEmptyFails | code/stl/c_list.h:492-505 | into an empty list, for every non-empty other, sorted or not: the loops of the merge, followed test by test, end by reading the value of the head, which has none; by then the ring is destroyed if some node is greater than the first, and untouched if none is |
| MergeSteps.MergeEndsIff | code/stl/c_list.h:492-505 | with the nodes of both lists spliced together and something to merge, the loops end without such a read if and only if the receiver was not empty, and then leave the ring of the textbook merge |
| MergeSteps.MergeGoes | code/stl/c_list.h:649-679 | from any two non-empty adjacent ranges at the end of a list the loops, followed test by test, end and leave the ring of the textbook merge |
| List.List.LinkNodeBefore | code/stl/c_list.h:578-587 | adds the node at the position and counts it; no cell of another list changes |
| List.List.UnlinkNode | code/stl/c_list.h:588-599 | takes the node out and counts it; no cell of another list changes |
| List.List.Erase | code/stl/c_list.h:330-339 | removes and frees the node, nothing else, and returns the position before it |
| List.List.PopBack | code/stl/c_list.h:290-293 | removes and frees the last node, if any, and nothing else |
| List.List.Clear | code/stl/c_list.h:388-390 | frees every node of the list and nothing else |
| Filtering.ReversedRing | code/stl/c_list.h:395-406 | a ring with every cell turned round is the ring of the reversed sequence |
| List.List.Reverse | code/stl/c_list.h:395-406 | the backward walk turns every cell once and reverses the list in place; no cell of another list changes |
| List.List.RemoveIf | code/stl/c_list.h:408-425 | frees exactly the matching nodes and nothing else, keeps the order of the others and returns their number |
| Filtering.UnmatchedAt | code/stl/c_list.h:408-425 | a node stays exactly when its value does not match |
| List.List.Unique | code/stl/c_list.h:431-448 | frees each node that matches the one kept before it and nothing else, and returns their number |
| List.OtherListKept | code/stl/c_list.h:390-680 | after an operation that touched only its own cells, every list of other nodes is well linked and holds the values it held |
| Filtering.NoRepeats | code/stl/c_list.h:431-448 | no node kept matches the node before it |
| Filtering.EveryValueStays | code/stl/c_list.h:450-452 | with equality as the predicate no value disappears |
| Buckets.RunsApart | code/stl/x_hash_table.h:321-330 | the runs of two buckets do not overlap |
| Buckets.InsertGrouped | code/stl/x_hash_table.h:321-330 | a node put in front of its bucket's run, or last for an empty bucket, keeps every bucket one contiguous run matching its count and first node |
| Buckets.RemoveGrouped | code/stl/x_hash_table.h:120-139 | removing a node keeps every bucket one contiguous run matching its count and first node |
| HashTable.SameContents | code/stl/x_hash_table.h:332-360 | reordering the nodes does not change the finite map |
| HashTable.KeyInRun | code/stl/x_hash_table.h:304-319 | a key can only be in the run of its own bucket |
| HashTable.AbsentIfNotInRun | code/stl/x_hash_table.h:304-319 | a key that the run of its bucket does not hold is nowhere in the table |
| HashTable.RehomeReady | code/stl/x_hash_table.h:338-355 | where the run of the node's bucket begins, and that the node moved there keeps all groups, the elements, and the total one larger |
| HashTable.MapReady | code/stl/x_hash_table.h:321-330 | where a new node goes, and that it keeps all groups and adds exactly its key to the map |
| HashTable.EraseReady | code/stl/x_hash_table.h:120-139 | taking a node out and updating its bucket keeps all groups and removes exactly its key from the map |
| HashTable.HashTable.constructor | code/stl/x_hash_table.h:56-62 | an empty table stands for the empty map |
| HashTable.HashTable.Find | code/stl/x_hash_table.h:304-319 | the bounded walk along one bucket agrees with looking through all elements: the node of the key, and the head exactly when it is absent |
| HashTable.HashTable.Rehome | code/stl/x_hash_table.h:338-355 | one round of rehashing: the processed prefix stays a concatenation of runs, one per non-empty new bucket, one node longer |
| HashTable.HashTable.ForceRehash | code/stl/x_hash_table.h:332-360 | at the end every bucket is one contiguous run, the counts add up to the size, and nodes and contents are unchanged |
| HashTable.HashTable.RelinkBefore | code/stl/x_hash_table.h:348-350 | unlinking and linking again moves one node in front of an earlier one |
| HashTable.HashTable.MinLoadFactorBuckets | code/stl/x_hash_table.h:367-369 | the least number of buckets for which the load is at most 3/4 |
| HashTable.HashTable.Rehash | code/stl/x_hash_table.h:167-171 | contents unchanged, and at least as many buckets as asked for and as the load requires |
| HashTable.HashTable.RehashIfOverload | code/stl/x_hash_table.h:362-365 | makes room for one more element within a load of 3/4 without changing the contents |
| HashTable.HashTable.MapAndLinkNode | code/stl/x_hash_table.h:321-330 | adds the node to its bucket's run and to the map |
| HashTable.HashTable.Emplace | code/stl/x_hash_table.h:98-118 | a present key is returned and no node, link, value or bucket changes; a new one is added to the map, keys stay unique and the load is at most 3/4, other lists untouched |
| HashTable.HashTable.PopBucket | code/stl/x_hash_table.h:126-135 | the bucket loses one node and keeps the right first node |
| HashTable.HashTable.Erase | code/stl/x_hash_table.h:120-139 | the map loses exactly the key and its node is freed, nothing else; the position before its node is returned, or the end when nothing was there |
| HashTable.HashTable.EraseNode | code/stl/x_hash_table.h:125-138 | the node leaves its bucket and the list and is freed |
| HashTable.HashTable.Clear | code/stl/x_hash_table.h:177-185 | the empty map over as many empty buckets, every node freed and nothing else |
| HashTable.OtherTableKept | code/stl/x_hash_table.h:98-185 | after an operation that changed values of its own nodes only, a table of other nodes holds what it held, in the same buckets |
| LockAlgorithm.MoveHolds | code/stl/x_lock.h:56-129 | each move changes the set of indices locked by exactly the mutex it takes or releases |
| LockAlgorithm.NextKeepsInv | code/stl/x_lock.h:56-136 | every step of any thread keeps every thread owning exactly what its program point says |
| LockAlgorithm.RunKeepsInv | code/stl/x_lock.h:56-136 | so it is in every state of every run of any number of threads on any orders of distinct mutexes |
| LockAlgorithm.CallOutcome | code/stl/x_lock.h:96-136 | a thread blocked inside `lock`, or refused by `try_lock`, owns just what it owned before the call; a thread that has returned owns all of its mutexes too |
| LockOutcome.CallPath | code/stl/x_lock.h:56-136 | along every run, the steps of a thread inside one call, with those of all other threads left out, lead that call from where it was to where it is |
| LockOutcome.TryLockAnswer | code/stl/x_lock.h:56-136 | a call of `try_lock` that answers k took each mutex before k once, in order, then failed to take mutex k, then gave the others back; it succeeds just when it took every mutex, once and in order |
| LockOutcome.LockHistory | code/stl/x_lock.h:82-129 | a call of `lock` is a number of failed rounds and one more: each round blocks on the mutex whose try failed in the round before (the first on mutex 0), tries the others in order, and gives back all it took; the call ends only after a round that took every mutex |
| LockOutcome.LockReturnsWithAll | code/stl/x_lock.h:82-129 | over every run: a thread that called `lock` and leaves the call owns every mutex of the call and every mutex it owned before |
| LockAlgorithm.CallKeepsEarlier | code/stl/x_lock.h:82-129 | along every run, for as long as a thread has not left its call, it owns every mutex it held before: backing out, failing and waiting give none of them away |
| LockAlgorithm.WaitsForRunner | code/stl/x_lock.h:98-99 | the owner of the mutex a thread is blocked on is itself blocked only if it held that mutex before its own call |
| LockAlgorithm.NoDeadlock | code/stl/x_lock.h:82-129 | in no reachable state is there a cycle of threads blocked on each other that has a thread which entered its call holding nothing |
| LockAlgorithm.CycleHeldBefore | code/stl/x_lock.h:82-129 | in every reachable state, each thread of any cycle of blocked threads held a mutex before it entered its call: the algorithm itself adds no cycle |
| LockAlgorithm.NextMove | code/stl/x_lock.h:56-129 | from each program point the next operation can be taken: a try can take its mutex if that is free and fail if it is owned |
| LockAlgorithm.CallPossible | code/stl/x_lock.h:82-136 | in every reachable state, a thread outside a call can call `lock` or `try_lock` on any distinct mutexes it does not own |
| LockAlgorithm.UnblockedCanStep | code/stl/x_lock.h:82-129 | a thread inside a call that is not blocked can take a step |
| LockAlgorithm.SomeoneCanStep | code/stl/x_lock.h:82-129 | when the threads inside a call entered it holding nothing, whoever is blocked waits for a thread that can take a step; threads outside a call may hold anything |
| LockAlgorithm.OwnerCanStep | code/stl/x_lock.h:82-129 | with no condition on what was held: the owner a blocked thread waits for can take a step if and only if it is not itself blocked, and then it had entered its call holding something |
| LockAlgorithm.WaitChainEnds | code/stl/x_lock.h:82-129 | with no condition on what was held: from every blocked thread of every reachable state, going from owner to owner ends at a thread that can take a step or closes a cycle of blocked threads |
| TimedMutex.NextKeepsInv | code/stl/c_condition_variable.h:218-257 | every step of any thread keeps the invariant of both monitors |
| TimedMutex.RunKeepsInv | code/stl/c_condition_variable.h:218-371 | so it holds in every state of every run |
| MutexHistory.DepthIsOutstanding | code/stl/c_condition_variable.h:218-371 | the field of the model that counts a thread's acquisitions is its history: successful acquisitions minus unlocks, counted from the run |
| MutexHistory.LockedCountsHistory | code/stl/c_condition_variable.h:294-371 | `_locked` is the number of successful acquisitions minus unlocks of the owner in the run, that difference is zero for every other thread, and `_owner` is set exactly while it is positive |
| MutexHistory.AtLeastNone | code/stl/c_condition_variable.h:218-371 | that difference is never negative, and at most one for a `timed_mutex` |
| MutexHistory.FreeIffNobodyHas | code/stl/c_condition_variable.h:218-371 | `_locked` is zero exactly when that difference is zero for every thread |
| MutexHistory.OneHolder | code/stl/c_condition_variable.h:218-371 | at most one thread has more acquisitions than unlocks, in any reachable state |
| MutexHistory.LockOutcome | code/stl/c_condition_variable.h:218-225 | over every run and for both mutexes: a thread back from `lock` has gained exactly one acquisition and nobody else has any; only when it had a recursive mutex UINT_MAX times already does `lock` fail, and then it gains none |
| MutexHistory.TryLockOutcome | code/stl/c_condition_variable.h:311-332 | `try_lock` gains one acquisition and reports success just when, at its step, nobody has the mutex, or it is recursive and the caller has it fewer than UINT_MAX times; it never waits |
| MutexHistory.TryLockUntilOutcome | code/stl/c_condition_variable.h:351-371 | the same of `try_lock_until` at the step it last looked; it gives up only at UINT_MAX acquisitions or on a look after its deadline |
| MutexHistory.TestOutcome | code/stl/c_condition_variable.h:218-225 | each look of a waiting call takes the mutex if nobody has it, and otherwise sleeps, or gives up if its deadline has passed |
| MutexHistory.DeadlineDecides | code/stl/c_condition_variable.h:72-79 | a call back from its wait after the deadline does not wait again: its next step reports just whether the mutex is available then |
| MutexHistory.DeadlineNeedsNoSignal | code/stl/c_condition_variable.h:72-79 | a thread asleep in `try_lock_until` can end its wait by its own timeout |
| MutexHistory.CallPossible | code/stl/c_condition_variable.h:218-371 | a thread outside a call can make any call, and `unlock` exactly if it has acquired more often than unlocked |
| MutexHistory.CallCanGoOn | code/stl/c_condition_variable.h:218-371 | a thread inside a call and not asleep waits for nothing but the internal mutex |
| MutexHistory.UnlockOutcome | code/stl/c_condition_variable.h:334-349 | `unlock` gives back exactly one acquisition, and signals before it returns just when that was the caller's last |
| MutexHistory.SignalWakesOne | code/stl/c_condition_variable.h:239-246 | the signal wakes exactly the sleeper it picks and moves nobody else but the thread that gives it; it picks none only if nobody is asleep |
| TimedMutex.SuccessOwns | code/stl/c_condition_variable.h:227-257 | as an acquisition reports success, `_locked` is set and the caller is the holder |
| TimedMutex.PendingHandedOn | code/stl/c_condition_variable.h:239-246 | the duty to notify or to look again is never dropped while the mutex is free: only the signal ends it for a thread, and then the sleeper the signal picks has it, or nobody is asleep |
| TimedMutex.NoLostWakeUp | code/stl/c_condition_variable.h:218-371 | in every reachable state with the mutex free and a thread asleep, some thread still owes its notify or has been woken and not yet looked |
| TimedMutex.FreeMutexIsNotStuck | code/stl/c_condition_variable.h:218-371 | in such a state the holder of the internal mutex can go on without any new call, timeout or spurious wake-up, and if there is none, a thread that owes its notify or has yet to look again can |
| TimedMutex.InnerHolder | code/stl/c_condition_variable.h:218-371 | the internal mutex is only ever held by a thread of the system |
| ConditionVariableAny.NextKeepsInv | code/stl/c_condition_variable.h:124-149 | every step keeps both locks with exactly the threads whose program points hold them, and no change of the predicate forgotten, also when a thread that changed it waits itself |
| ConditionVariableAny.RunKeepsInv | code/stl/c_condition_variable.h:124-149 | so it is in every state of every run |
| ConditionVariableAny.NotifyFindsSleeper | code/stl/c_condition_variable.h:124-143 | a notifier holding the internal mutex, after the data changed since a waiter's test, finds that waiter already asleep |
| ConditionVariableAny.DebtRemains | code/stl/c_condition_variable.h:129-132 | the notification a thread owes for its change is settled only by its notify_all, and then nobody is left asleep on outdated data |
| ConditionVariableAny.NoLostNotification | code/stl/c_condition_variable.h:124-149 | while a thread sleeps on data changed since its test, some other thread has made a change and not called notify_all since |
| NotifyHistory.SignalWakes | code/stl/c_condition_variable.h:124-132 | the signal of `notify_one` wakes exactly one thread if any is asleep and nobody otherwise, that of `notify_all` leaves nobody asleep; every other thread but the notifier stays where it is |
| NotifyHistory.NotifyOutcome | code/stl/c_condition_variable.h:124-132 | over every run: a call of `notify_one` or `notify_all` gives its own signal before it returns, and leaves the user lock with whoever had it |
| NotifyHistory.SignalFindsWaiter | code/stl/c_condition_variable.h:124-143 | over every run: if the data changed after a waiter's failed test, any later signal finds that waiter asleep or already woken, never on its way to sleep |
| NotifyHistory.ChangeIsNotified | code/stl/c_condition_variable.h:124-143 | so a `notify_all` after the change wakes that waiter, and a `notify_one` wakes exactly one of the sleepers |
| NotifyHistory.WaitPasses | code/stl/c_condition_variable.h:134-143 | a wait passes all its stages one by one before it tests again: internal mutex, user lock given up, asleep, woken, internal mutex, given up, user lock |
| NotifyHistory.WaitSleeps | code/stl/c_condition_variable.h:134-143 | a wait that tests again has been asleep, and was woken by a signal or by its own timeout |
| NotifyHistory.WokenBySignal | code/stl/c_condition_variable.h:124-143 | nothing but a signal wakes another thread |
| NotifyHistory.FieldsAreHistory | code/stl/c_condition_variable.h:124-149 | the model's version counter and its debts are the history: the changes made, and who has changed the data and given no notify_all since |
| NotifyHistory.SeenIsHistory | code/stl/c_condition_variable.h:145-149 | what a waiter is said to have seen is the number of changes made before its test |
| NotifyHistory.DataChanges | code/stl/c_condition_variable.h:145-149 | the data is changed only by a thread holding the user lock |
| NotifyHistory.UserMay | code/stl/c_condition_variable.h:124-168 | notifying is possible with and without the user lock, changing the data and waiting with it; a sleep may end by a timeout and the wait then give up |
| NotifyHistory.SomeoneProceeds | code/stl/c_condition_variable.h:124-149 | in every reachable state, a thread inside an operation and not asleep can go on, or waits for a lock whose holder can, or whose holder waits for the other lock and its holder can |
| ConditionVariableAny.WaitReturnsLocked | code/stl/c_condition_variable.h:145-149 | `wait` with a predicate tests it holding the user lock, the first time and every later time, and returns just when it is true, with the lock held |
| ConditionVariableAny.GiveUpReturnsLocked | code/stl/c_condition_variable.h:161-168 | `wait_until` with a predicate that returns after its timeout returns holding the user lock too |
| ConditionVariableAny.LockOrder | code/stl/c_condition_variable.h:134-143 | no thread waits for the user lock while it holds the internal mutex |
| ConditionVariableAny.NoWaitChain | code/stl/c_condition_variable.h:134-143 | the two locks cannot deadlock: chains of waiting are at most two long |
| BlockMap.SlotsApart | code/stl/c_deque.h:32-34 | offsets less than one turn apart never share a slot |
| BlockMap.SlotReached | code/stl/c_deque.h:32-34 | every slot is reached within one turn from any offset |
| BlockMap.EndsApart | code/stl/c_deque.h:606-611 | at growth time the first and the last element are in different blocks |
| BlockMap.NextBlock | code/stl/c_deque.h:621-624 | stepping to the next block and wrapping round is adding one modulo the capacity |
| BlockMap.AroundIsModular | code/stl/c_deque.h:613-625 | so the loop meets after k steps the block of the offset k blocks further on, modulo the capacity |
| BlockMap.MovedHolds | code/stl/c_deque.h:606-636 | the longer table holds the same sequence from the first element's offset in its block on, although no element has moved |
| BlockMap.LeftOver | code/stl/c_deque.h:626-630 | the blocks freed after the move are exactly those the new table does not own |
| BlockMap.HoldsNothing | code/stl/c_deque.h:379-380 | an empty deque is empty from any first offset, so the offset may be reset |
| Deque.Deque.constructor | code/stl/c_deque.h:269-271 | a new deque is empty with eight block places |
| Deque.Deque.CreateEmptyMap | code/stl/c_deque.h:659-665 | a table of null pointers |
| Deque.Deque.InitMap | code/stl/c_deque.h:667-674 | at least the default capacity, and empty |
| Deque.Deque.AllocateIfNull | code/stl/c_deque.h:357-358 | a block is allocated when first needed, and no cell changes |
| Deque.Deque.Construct | code/stl/c_deque.h:357-360 | an object is constructed in a raw cell, and no other cell within a turn changes |
| Deque.Deque.Destroy | code/stl/c_deque.h:378-378 | only a constructed object is destroyed |
| Deque.Deque.Get | code/stl/c_deque.h:116-124 | dereferencing an iterator gives the element of that position |
| Deque.Deque.Set | code/stl/c_deque.h:431-434 | assigning through an iterator changes that element only |
| Deque.Deque.MovePointers | code/stl/c_deque.h:613-627 | the loop moves the pointers from the first to the last block round the end of the table, and nulls just those |
| BlockMap.MoveOnePointer | code/stl/c_deque.h:616-624 | moving one pointer and nulling the old one keeps the moved blocks and the left ones exactly those of one step more |
| Deque.Deque.FreeBlocks | code/stl/c_deque.h:494-499 | every block still in the table is freed once; without a table nothing happens |
| Deque.Deque.Reserve | code/stl/c_deque.h:606-636 | the sequence is unchanged, no block is leaked, freed twice or shared |
| Deque.Deque.ExtendIfFull | code/stl/c_deque.h:638-643 | afterwards there is a table with room for one more element |
| Deque.Deque.EmplaceBack | code/stl/c_deque.h:350-362 | appends |
| Deque.Deque.EmplaceFront | code/stl/c_deque.h:384-397 | prepends, also when the first offset is zero |
| Deque.Deque.PopBack | code/stl/c_deque.h:372-382 | drops the last element, if any |
| Deque.Deque.PopFront | code/stl/c_deque.h:407-418 | drops the first element, if any |
| Deque.Deque.ShiftForward | code/stl/c_deque.h:431-432 | the loop overwrites each element with the one after it |
| Deque.Deque.ShiftBackward | code/stl/c_deque.h:443-444 | the loop overwrites each element with the one before it |
| Deque.InsertedFromFront | code/stl/c_deque.h:424-435 | passing an element from the front over the first ones inserts it |
| Deque.InsertedFromBack | code/stl/c_deque.h:436-447 | the same from the back |
| Deque.RemovedAtFront | code/stl/c_deque.h:466-475 | moving the first elements up and dropping the front removes one |
| Deque.RemovedAtBack | code/stl/c_deque.h:476-485 | the same from the back |
| Deque.Deque.Emplace | code/stl/c_deque.h:420-450 | inserts at the position whichever side is moved, and returns the position of the new element |
| Deque.Deque.Erase | code/stl/c_deque.h:460-488 | removes at the position whichever side is moved; at the end it throws and nothing changes |
| Deque.Deque.EraseNearFront | code/stl/c_deque.h:466-475 | closer to the front: the first elements move up by one and the front goes |
| Deque.Deque.EraseNearBack | code/stl/c_deque.h:476-485 | closer to the back: the last elements move down by one and the back goes |
| Deque.Deque.At | code/stl/c_deque.h:515-527 | the element, or the exception exactly when the index is out of range |
| Deque.Deque.Clear | code/stl/c_deque.h:490-500 | empty, every block freed, the table kept; a deque that was moved from stays empty |
| Deque.Deque.CleanUpMap | code/stl/c_deque.h:676-683 | empty, and the table freed too; the capacity is left as it was |
| Deque.Deque.MoveFrom | code/stl/c_deque.h:321-329 | takes over the other's sequence and blocks; the other is empty and usable |
| PriorityQueue.MaxChildChosen | code/stl/c_queue.h:278-292 | the test on the sum of the child indices finds exactly the leaves, and otherwise no child is above the one chosen |
| PriorityQueue.SiftUpHeap | code/stl/c_queue.h:242-255 | from a heap with one element possibly too low, sifting up gives a heap of the same elements |
| PriorityQueue.SiftDownHeap | code/stl/c_queue.h:257-276 | from a heap with one element possibly too high, sifting down gives a heap of the same elements |
| PriorityQueue.FrontIsLargest | code/stl/c_queue.h:205-211 | no element is above the front |
| PriorityQueue.PushedHeap | code/stl/c_queue.h:178-182 | pushing keeps the heap and adds exactly the element |
| PriorityQueue.PoppedHeap | code/stl/c_queue.h:192-199 | popping keeps the heap and removes exactly the front |
| PriorityQueue.RunRefinesBag | code/stl/c_queue.h:178-199 | along every run of pushes and pops from empty, the heap order holds and each call is a step of a bag whose pop takes a largest element |
| PriorityQueue.DrainedKeeps | code/stl/c_queue.h:192-211 | popping until empty yields a permutation of what was held |
| PriorityQueue.DrainedIsSorted | code/stl/c_queue.h:192-211 | and the permutation never increases |
| PriorityQueue.PriorityQueue.PushAdjust | code/stl/c_queue.h:242-255 | the loop in place is sifting up |
| PriorityQueue.PriorityQueue.PopAdjust | code/stl/c_queue.h:257-276 | the loop in place is sifting down |
| PriorityQueue.PriorityQueue.Emplace | code/stl/c_queue.h:178-182 | the heap with the element added |
| PriorityQueue.PriorityQueue.Pop | code/stl/c_queue.h:192-199 | the heap with the front removed; nothing happens when empty |
| PriorityQueue.PriorityQueue.Front | code/stl/c_queue.h:205-211 | returns a largest element |
| Words.ShrDivides | code/stl/c_bit.h:49-49 | shifting right is division by a power of two |
| Words.BitShl | code/stl/c_bitset.h:104-106 | each bit of a left shift, with the bits beyond the word dropped |
| Words.MaskTest | code/stl/c_bitset.h:215-215 | a word equals the mask of k ones just when those are its ones |
| Bits.CountlZero | code/stl/c_bit.h:40-61 | halving counts the leading zeros of any word exactly |
| Bits.TrailingMask | code/stl/c_bit.h:70-70 | the complement of a word and the word minus one share exactly the trailing zeros |
| Bits.CountrZero | code/stl/c_bit.h:67-71 | the exact power of two in any word, and the width for zero |
| Bits.TrailingIsExact | code/stl/c_bit.h:67-71 | what remains after shifting the trailing zeros out is odd, and times the power of two is the word |
| BitBlocks.BlocksUpFlat | code/stl/c_bitset.h:97-99 | shifting by whole blocks moves every bit by that many blocks |
| BitBlocks.BitsUpFlat | code/stl/c_bitset.h:101-107 | shifting by the rest moves every bit by the rest, across word borders |
| BitBlocks.BlocksDownFlat | code/stl/c_bitset.h:116-118 | the same downwards |
| BitBlocks.BitsDownFlat | code/stl/c_bitset.h:120-126 | the same downwards |
| BitBlocks.TrimmedFlat | code/stl/c_bitset.h:296-301 | trimming clears the padding bits and no other |
| Bitset.UpByShifts | code/stl/c_bitset.h:94-111 | for every bit count, shift and number of blocks: block shift, bit shift and trim are the shift of the plain bit sequence, with the padding zero |
| Bitset.DownByShifts | code/stl/c_bitset.h:113-129 | the same for the right shift, without trimming |
| Bitset.LeftThenRight | code/stl/c_bitset.h:94-129 | shifting up and down again clears the bits that fell off and no other |
| Bitset.WordsFromBits | code/stl/c_bitset.h:296-301 | with the padding zero, equal bits mean equal words |
| Bitset.Bitset.constructor | code/stl/c_bitset.h:29-29 | all bits false |
| Bitset.Bitset.Trim | code/stl/c_bitset.h:296-301 | masks the last word, or the only one of an empty bitset |
| Bitset.Bitset.MoveBlocksUp | code/stl/c_bitset.h:97-99 | the loop from the top in place is the block shift |
| Bitset.Bitset.MoveBitsUp | code/stl/c_bitset.h:101-107 | the loop from the top in place is the bit shift |
| Bitset.Bitset.MoveBlocksDown | code/stl/c_bitset.h:116-118 | the loop from the bottom in place is the block shift |
| Bitset.Bitset.MoveBitsDown | code/stl/c_bitset.h:120-126 | the loop from the bottom in place is the bit shift |
| Bitset.Bitset.ShiftLeft | code/stl/c_bitset.h:94-111 | `<<=` shifts the bit sequence |
| Bitset.Bitset.ShiftRight | code/stl/c_bitset.h:113-129 | `>>=` shifts the bit sequence |
| Bitset.Bitset.Flip | code/stl/c_bitset.h:177-183 | every bit that counts is negated |
| Bitset.Bitset.GetBit | code/stl/c_bitset.h:348-350 | the bit at the position |
| Bitset.Bitset.Set | code/stl/c_bitset.h:161-166 | changes one bit; beyond the end it throws and nothing changes |
| Bitset.Bitset.All | code/stl/c_bitset.h:205-216 | true exactly when every bit is set |
| Bitset.WordFullTest | code/stl/c_bitset.h:210-215 | comparing words with all ones, and the last with the mask, tests just the bits that count |
| Bitset.Bitset.ToString | code/stl/c_bitset.h:237-247 | one placeholder per bit, highest bit first |
| Bitset.Bitset.ConstructFromChars | code/stl/c_bitset.h:303-346 | fails exactly when a character is neither placeholder; otherwise the bits are those of the characters used and the rest zero |
| Bitset.Bitset.ReadBlocks | code/stl/c_bitset.h:316-342 | the backward loop fills word after word |
| Bitset.ReadAfterWrite | code/stl/c_bitset.h:237-247 | reading back what was written gives the same bits, for distinct placeholders |
| Bitset.WriteAfterRead | code/stl/c_bitset.h:303-346 | writing back what was read gives the characters used, filled up in front |
| Numeric.GcdOfOddParts | code/stl/c_numeric.h:372-377 | taking out the factors of two first and putting back the common ones last gives the greatest common divisor |
| Numeric.GcdWithoutTwos | code/stl/c_numeric.h:393-393 | factors of two in one number do not matter when the other is odd |
| Numeric.OddGcd | code/stl/c_numeric.h:379-394 | the loop ends, both numbers odd at each round and their sum decreasing, with their greatest common divisor |
| Numeric.GcdUnsigned | code/stl/c_numeric.h:357-395 | the mathematical greatest common divisor for all unsigned values of the width, zeros included |
| Numeric.AbsUnsigned | code/stl/c_numeric.h:335-352 | the absolute value of every signed value, the least one included |
| Numeric.GcdSigned | code/stl/c_numeric.h:357-395 | on signed values the result is the greatest common divisor if and only if not both arguments are zero or the least value; then it is the least value itself |
| Divisibility.LcmIsLeast | code/stl/c_numeric.h:413-413 | one number over the greatest common divisor times the other is the least common multiple |
| Divisibility.LcmTimesGcd | code/stl/c_numeric.h:413-413 | the least common multiple times the greatest common divisor is the product |
| Numeric.LcmUnsigned | code/stl/c_numeric.h:401-414 | the result is the least common multiple, and times the greatest common divisor is the product, if and only if the least common multiple fits |
| Numeric.LcmSigned | code/stl/c_numeric.h:401-414 | on signed values it must fit the signed type |
| Divisibility.GcdIsGreatest | code/stl/c_ratio.h:19-34 | Euclid's algorithm: a common divisor that every common divisor divides |
| Ratio.GcdLoop | code/stl/c_ratio.h:19-34 | the loop is Euclid's algorithm on absolute values, and one for two zeros |
| Ratio.Carried | code/stl/c_ratio.h:65-76 | no sum of partial products and carries exceeds 64 bits, and together they are the whole product |
| Ratio.BigMultiply | code/stl/c_ratio.h:59-77 | the exact 128-bit product of any two 64-bit values |
| Ratio.AddCarries | code/stl/c_ratio.h:59-77 | adding the four partial products half by half with wrapping words gives both halves of the exact sum |
| Ratio.BigLessIsOrder | code/stl/c_ratio.h:50-55 | comparing upper then lower halves is comparing the numbers |
| Ratio.RatioLess | code/stl/c_ratio.h:215-227 | exactly the order of the rational numbers, for all signs |
| Ratio.MakeRatioIsLowest | code/stl/c_ratio.h:84-94 | the members are the quotient in lowest terms with a positive denominator |
| Ratio.LowestIsUnique | code/stl/c_ratio.h:195-199 | ratios in lowest terms have equal members exactly when they have equal values |
| Ratio.SafeMultiplyIsExact | code/stl/c_ratio.h:104-112 | the guard fails just when the product is out of range |
| Ratio.SafeAddIsExact | code/stl/c_ratio.h:38-43 | the guard fails just when the sum is out of range |
| Ratio.AddIsExact | code/stl/c_ratio.h:115-127 | defined exactly when the least common denominator, both numerators over it and their sum are representable, and then the exact sum in lowest terms |
| Ratio.AddFailsOnHalves | code/stl/c_ratio.h:115-127 | that condition is not the representability of the sum: for every odd number whose double is out of range, half of it twice is rejected |
| Ratio.ProductIsLowest | code/stl/c_ratio.h:145-160 | after cancelling crosswise the product is already in lowest terms |
| Ratio.MultiplyIsExact | code/stl/c_ratio.h:145-177 | the exact product in lowest terms, or rejected when that is out of range |
| Ratio.MultiplyFailsOnlyIfItMust | code/stl/c_ratio.h:162-177 | rejected only when no representable ratio is the product |
| Ratio.SubtractIsExact | code/stl/c_ratio.h:133-142 | the same of the negated second ratio, and then the exact difference in lowest terms |
| Ratio.DivideIsExact | code/stl/c_ratio.h:180-192 | the exact quotient in lowest terms; dividing by zero is rejected |
| Ratio.DivideFailsOnlyIfItMust | code/stl/c_ratio.h:180-192 | dividing by a ratio other than zero is rejected only when no representable ratio is the quotient |

## Left out

- SearchTree.SearchTree.Erase: requires two nodes when the key is present, because with one node the source reads the node it has just freed (x_search_tree.h:778-780); `ResetReadsLiveNodes` proves that two nodes are exactly what is needed.
- SearchTree.SearchTree.Destroy: requires two nodes, for the same reason.
- List.List.Merge: requires a non-empty receiver when there is something to merge, because otherwise the source reads the value of the head, which has none (c_list.h:493-505); `MergeEndsIff` proves that this is exactly when it does.
- List.List.Sort: is not stable, which section [list.ops] of ISO/IEC 14882:2020 asks of `sort` and the source does not meet (`SortIsNotStable`); it leaves the order `SortSeq`, and `SortIsStableIff` says for which inputs that order is stable.
- List.List.Erase: returns the position before the erased one, as the source does, where the standard asks for the one after.
- Numeric.LcmUnsigned: the promotion of types narrower than `int` is not modelled; the multiplication wraps at the width of the type.
- Deque.Deque.PopFront: the first offset grows without bound, where `size_t` would wrap after 2^64 steps.
- Heap objects: nodes are cells of an explicit memory map and not Dafny objects, so aliasing between different containers' nodes is excluded by separate maps or stated as disjointness.
- Mapped values of `map` and `unordered_map`, their `at` and `operator[]`: a node carries its key only, and keeps whatever else it holds.
- Exceptions thrown by constructors, comparators, predicates and mutexes, and what `catch` blocks undo; `max_size` checks; allocator propagation.
- Arguments of `emplace` that alias an element of the same `deque`; assignment of elements copies.
- HashTable.HashTable.RehashIfOverload: the load is computed in `float` in the source and modelled exactly as 4 * (size + 1) > 3 * buckets.
- HashTable.HashTable.MinLoadFactorBuckets: exact division in place of the `float` one.
- `lock(...)`: no claim that a call ever returns, which the algorithm does not guarantee; `try_lock` on one mutex may fail spuriously; a mutex is owned by a thread and not recursive.
- `unlock` by a thread that has not acquired the timed mutex, which section [thread.timedmutex.requirements] of ISO/IEC 14882:2020 excludes.
- The timed mutexes and the condition variable: no fairness and no claim of eventual progress; clocks are reduced to a timeout that may strike at any time, so `wait_for` is `wait_until`; destroying the condition variable during a wait.
- Tree copy, assignment, `clear` by recursion and `operator==`; list copy and move; hash-table copy and move; `deque` copy and `resize`.
- `list::remove`, `resize`, insertion by value: one call of the operations modelled.
- `bitset`: bitwise operators, `count`, `any`, conversion to integers, construction from integers, and `operator==`, which compares the wrong way round.
- `forward_list`, `vector`, `array`, `stack`, `queue`, strings, algorithms, `shared_ptr`, `complex`, `chrono` and the type machinery.

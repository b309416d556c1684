# CPAM: joins, shared trees, versions and what is built on them

CPAM is a library of purely functional ordered maps. Its trees come in two forms: plain balanced trees
(`include/pam`) and trees whose leaves are sorted blocks of B to 2B entries (`include/cpam`). This project
models the parts that everything else in the repository rests on and proves what they promise, for all
inputs, all sharing of nodes and all interleavings.

* **Joins.** `Basics.dfy`, `Trees.dfy`, `PlainJoin.dfy` and `BlockedJoin.dfy` hold the weight-balanced join on values, in
  exact integers (29 w(a) > 71 w(b) for "too heavy", 71 w(inner) <= 42 w(t) for a single rotation). The
  blocked join keeps every leaf between B and 2B entries and every node balanced for every B >= 1, and its
  scratch array of 7B entries always suffices. `RedBlack.dfy` and `RedBlackNodes.dfy` do the same for
  red-black trees, the second in place on nodes.
* **Reference counts and copy on write.** `NodeHeap.dfy` gives the heap invariant: a count is the number of
  child fields and held references to the node, sizes and augmented values are those of the tree below, and
  a node nobody refers to is not in memory. A *token* stands for one counted reference that a caller, root
  or local variable holds. `HeapClass.dfy` has the elementary operations, `HeapJoin.dfy` and
  `HeapBlocked.dfy` the two joins, and `HeapMap.dfy`, `HeapUnion.dfy`, `HeapDelete.dfy`, `HeapAlgebra.dfy` and
  `HeapBatch.dfy` insertion, splitting, union, deletion, intersection, difference, batches, filter and ranges
  with the source's borrowed "extra" pointers. Each contract says what every token holds afterwards, so that
  nothing is lost, nothing is freed too early and every other tree keeps its contents. `HeapFrames.dfy` shows
  which counts a call cannot change, and `HeapFilter.dfy` uses it for the one operation that does lose nodes.
  `HeapReuse.dfy` says what becomes of memory when nobody else refers to the nodes of an argument: a join
  allocates nothing, a split frees one node at most, and an insertion allocates what the tree grows by.
* **Map algebra.** `SortedMaps.dfy`, `PlainMap.dfy` and `PlainBatch.dfy` state the operations key by key on plain
  trees; `BlockedMap.dfy`, `BlockedBatch.dfy`, `BlockedLoops.dfy` and `BlockInsert.dfy` on blocked trees,
  with the base-case loops on arrays.
* **Versions.** `VersionList.dfy` is the lock-free version list as a state machine with one step per atomic
  access: what every step keeps, what is freed in every fair run, and what a thread achieves in how many steps.
* **Frontier algorithms.** `Traversal.dfy` (edgeMap), `Bfs.dfy`, `Components.dfy` and `Mis.dfy`.
* **Encodings.** `DiffEncoding.dfy`, `NeighborEncoding.dfy` and `IndexEncoding.dfy`; numbers use unsigned
  LEB128 (section 7.6 of DWARF version 5) except that zero takes no bytes.
* **Augmentation.** `AugSums.dfy`, `AugSelect.dfy`, `HeapFilter.dfy`, `RangeTree.dfy`, `IntervalMap.dfy`, and
  the neighbour selection of `RobustPrune.dfy`.

Several things turned out to hold only under a condition, which is stated exactly and for all inputs, mostly
with an input that fails it:

* the block insertion of `insert_compressed2` (`BlockInsert.InsertsExactlyWhen`);
* decoding (`DiffEncoding.ReadBackExactlyWhen`, `NeighborEncoding.ListReadBackExactlyWhen`,
  `IndexEncoding.BlockReadBackExactlyWhen`);
* the argument order of op in unions and intersections of blocked trees (`BlockedMap.UnionInOrderExactlyWhen`,
  `BlockedMap.IntersectInOrderExactlyWhen`) and taking a block apart (`BlockedMap.ExposesExactlyWhen`);
* `aug_filter` losing nothing of an owned map (`HeapFilter.Filter`, `HeapFilter.InnerIsLost`);
* repetitions in short neighbour lists (`RobustPrune.ShortIsDistinctExactlyWhen`);
* publishing a graph without a base version: the version before it is freed, in some run and in every fair one,
  if and only if a thread had looked it up and was not done with it (`VersionList.PublishLeaks`,
  `VersionList.PublishFairly`).

Two branches of the blocked join that test for a fitting size or for two uneven blocks are never taken
(`BlockedJoin.SpineIsNotMid`, `BlockedJoin.NodeJoin`).

Functions on values that a method on the heap or on arrays refines appear in the table beside it: the
method's contract ties it to the function, and the function's contract and lemmas say what it means.

## Model

| member | source | states |
|---|---|---|
| WeightBalance.SingleRotationBalances | include/pam/weight_balanced_tree.h:35-47 | when the spine side of a balanced node has outgrown its sibling and its inner part weighs at most 42/71 of it, one rotation leaves both touched nodes balanced; the bound is used with no slack |
| WeightBalance.DoubleRotationBalances | include/pam/weight_balanced_tree.h:35-47 | otherwise the double rotation leaves all three touched nodes balanced |
| PlainJoin.RightJoin | include/pam/balance_utils.h:56-67 | for balanced trees with 71 w(t2) < 100 w(t1), the bound that descending preserves: a balanced tree whose entries are t1, k, t2 in order, and weights add up |
| PlainJoin.LeftJoin | include/pam/balance_utils.h:69-80 | the mirror image |
| PlainJoin.NodeJoin | include/pam/balance_utils.h:91-94 | for every two balanced trees: a balanced tree over the entries of t1, then k, then those of t2 |
| PlainJoin.RebalanceLeft | include/pam/balance_utils.h:61-66 | given what the spine knows of the grown side, the result is balanced over the same entries |
| PlainJoin.RebalanceRight | include/pam/balance_utils.h:74-79 | the mirror image |
| PlainJoin.HeightIsLogarithmic | include/pam/weight_balanced_tree.h:30-47 | a balanced tree of height h and size n has 100^h <= 71^h (n + 1) |
| BlockedJoin.FourBlocks | include/cpam/basic_node_helpers.h:36-71 | 4B+2 to 8B+2 entries become two to four blocks of B to 2B entries under balanced nodes, in order |
| BlockedJoin.Pack | include/cpam/basic_node_helpers.h:82-98 | B to 8B+2 entries become a tree of legal, balanced blocks over exactly those entries |
| BlockedJoin.PackShape | include/cpam/basic_node_helpers.h:82-98 | up to 2B entries make one block, up to 4B+1 two, and more more; the two sides differ by one entry at most, the longer one being the left of two blocks and the right of more |
| BlockedJoin.MakeCompressed | include/cpam/basic_node_helpers.h:103-137 | two trees and an optional entry, B to 7B entries together, become such a tree; every call that the joins make meets the bound of the 7B scratch array |
| BlockedJoin.BalancedJoin | include/cpam/balance_utils.h:218-248 | trees that neither outweigh each other: a well-formed tree over l, e, r, repacked when one side is below B and the whole is not |
| BlockedJoin.RightJoin | include/cpam/balance_utils.h:119-165 | keeps the kind of its spine (all leaves blocks of B to 2B and every node balanced, or a small tree without blocks), with the entries t1, k, t2 |
| BlockedJoin.RebalanceLeft | include/cpam/balance_utils.h:144-160 | rotates once, twice or rebuilds the region when the inner grandchild is a block; the result is well-formed over the same entries |
| BlockedJoin.LeftJoin | include/cpam/balance_utils.h:167-211 | the mirror image of the right join |
| BlockedJoin.RebalanceRight | include/cpam/balance_utils.h:190-206 | the mirror image |
| BlockedJoin.RebuildFits | include/cpam/balance_utils.h:151-155 | the rebuilt region holds between B and 7B entries |
| BlockedJoin.SpineIsNotMid | include/cpam/balance_utils.h:132-137 | the fit test on the way down never succeeds on well-formed trees |
| BlockedJoin.RegularJoin | include/cpam/balance_utils.h:251-267 | two well-formed trees that are not blocks: a well-formed tree over t1, k, t2 |
| BlockedJoin.NodeJoin | include/cpam/balance_utils.h:276-330 | any two well-formed blocked trees, any B >= 1: a well-formed blocked tree whose entries are t1, k, t2; the last branch is unreachable |
| BlockedJoin.WellFormedPassesCheck | include/cpam/weight_balanced_tree.h:61-92 | the debug check accepts every tree that is well-formed |
| NodeHeap.MakeKeepsInv | include/pam/basic_node.h:36-42 | a new node leaves all counts exact and all other trees as they were |
| NodeHeap.IncKeepsInv | include/pam/gc.h:45-52 | incrementing for one new holder keeps every count equal to the number of its holders |
| NodeHeap.DecKeepsInv | include/pam/gc.h:21-30 | so does giving up a reference that is not the last |
| NodeHeap.FreeKeepsInv | include/pam/gc.h:21-30 | so does freeing a node whose last reference is given up: nothing else refers to it |
| NodeHeap.OpenKeepsInv | include/pam/balance_utils.h:14-32 | a node with one reference can be taken apart: its two child references pass to the owner |
| NodeHeap.CloseKeepsInv | include/pam/augmented_node.h:32-38 | assigning the child fields and updating passes them back; the stored size and augmented value are those of the tree below |
| NodeHeap.NoGarbage | include/pam/gc.h:32-43 | in every state that satisfies the invariant each node in memory is reached by a chain of child fields from a held reference |
| NodeHeap.NoDangling | include/pam/gc.h:32-43 | and whatever such a chain reaches has not been freed |
| HeapClass.Heap.MakeNode | include/pam/basic_node.h:36-42 | a new node held by its caller at an unused address; no other cell changes, and everyone else holds and sees what they did |
| HeapClass.Heap.MakeBlock | include/cpam/basic_node.h:192-214 | a new block held by its caller alone |
| HeapClass.Heap.Inc | include/pam/gc.h:45-52 | one more holder of the same tree |
| HeapClass.Heap.Close | include/pam/augmented_node.h:32-38 | the node under construction stands for the tree over its two children, with exact size and augmented value; only its child fields and what is computed from them change |
| HeapClass.Heap.SetEntry | include/pam/augmented_node.h:24-26 | only the entry of the node under construction changes |
| HeapClass.Heap.FreeNode | include/pam/basic_node.h:50-53 | exactly this node leaves memory |
| HeapClass.Heap.DecrementRecursive | include/pam/gc.h:32-43 | one reference is given up: if it was not the last, no node is freed, else the node and what only it kept alive are; every other holder and borrower sees what it saw, and no count grows |
| HeapJoin.Copy | include/pam/gc.h:54-61 | a new node with the same entry and children; the children gain a reference each |
| HeapJoin.CopyIfNeeded | include/pam/gc.h:63-74 | a node that the caller alone may rewrite, standing for the same tree: the node itself, with memory as it was, if it has one reference, and otherwise a new one, the only new one, beside the old one |
| HeapReuse.CountsApart | include/pam/gc.h:63-74 | if every node of the two trees that a join is given has one reference, no node is in both, none is in one of them twice, and the middle node is in neither |
| HeapJoin.RotateLeft | include/pam/balance_utils.h:24-32 | in place: the rotated tree, held by the caller alone, made of the nodes given |
| HeapJoin.RotateRight | include/pam/balance_utils.h:14-22 | the mirror image |
| HeapJoin.DoubleRotateLeft | include/pam/balance_utils.h:45-54 | the doubly rotated tree; if the inner child has one reference it becomes the root and nothing is allocated or freed |
| HeapJoin.DoubleRotateRight | include/pam/balance_utils.h:34-43 | the mirror image |
| HeapJoin.RebalanceLeft | include/pam/balance_utils.h:61-66 | on the heap, the tree that PlainJoin.RebalanceLeft specifies, held by the caller alone |
| HeapJoin.RebalanceRight | include/pam/balance_utils.h:74-79 | the mirror image |
| HeapJoin.BalancedJoin | include/pam/balance_utils.h:82-88 | the middle node over the two trees |
| HeapJoin.RightJoin | include/pam/balance_utils.h:56-67 | on the heap, the tree that PlainJoin.RightJoin specifies, for any sharing of the arguments; made of the nodes of the arguments if each has one reference |
| HeapJoin.LeftJoin | include/pam/balance_utils.h:69-80 | the mirror image |
| HeapJoin.NodeJoin | include/pam/balance_utils.h:91-94 | consumes both trees and the node and returns the specified tree; every other reference keeps its contents and counts stay exact. If every node of both trees has one reference, nothing is allocated or freed, no other cell changes, and each node of the result has one reference |
| HeapBlocked.CopyEntries | include/cpam/basic_node.h:116-129 | the entries of a tree on the heap, in order, in consecutive slots of the array |
| HeapBlocked.PackTwo | include/cpam/basic_node_helpers.h:18-33 | two new blocks under the given node, or under a new one |
| HeapBlocked.PackHalf | include/cpam/basic_node_helpers.h:40-59 | one block of 2B entries or two blocks under a new node |
| HeapBlocked.Pack | include/cpam/basic_node_helpers.h:125-134 | one, two or four blocks by the number of entries; a middle node that is not needed is freed |
| HeapBlocked.PackFour | include/cpam/basic_node_helpers.h:36-71 | up to four new blocks, as BlockedJoin.FourBlocks places them |
| HeapBlocked.MakeCompressed | include/cpam/basic_node_helpers.h:103-137 | copies both trees and the entry through a real array of 7B slots, uses or frees the given node, and gives up both trees |
| HeapBlocked.BalancedJoin | include/cpam/balance_utils.h:218-248 | on the heap, the tree that BlockedJoin.BalancedJoin specifies |
| HeapBlocked.RebalanceLeft | include/cpam/balance_utils.h:144-160 | on the heap, the tree that BlockedJoin.RebalanceLeft specifies, held by the caller alone, for any sharing |
| HeapBlocked.RebalanceRight | include/cpam/balance_utils.h:190-206 | the mirror image |
| HeapBlocked.RightJoin | include/cpam/balance_utils.h:119-165 | on the heap, the tree that BlockedJoin.RightJoin specifies, for any sharing |
| HeapBlocked.LeftJoin | include/cpam/balance_utils.h:167-211 | the mirror image |
| HeapBlocked.RegularJoin | include/cpam/balance_utils.h:251-267 | on the heap, the tree that BlockedJoin.RegularJoin specifies |
| HeapBlocked.NodeJoin | include/cpam/balance_utils.h:276-330 | consumes its arguments, returns the well-formed blocked tree over t1, k, t2, and leaves exact counts and every other tree unchanged |
| PlainMap.SplitAt | include/pam/map_ops.h:118-148 | the entries below k, the one under k and those above k; balanced, ordered, none lost |
| PlainMap.Union | include/pam/map_ops.h:192-210 | the union map: op of the value of b1 and that of b2 on common keys |
| PlainMap.Join2 | include/pam/sequence_ops.h:60-80 | two trees on the two sides of a key become one over both |
| PlainMap.Intersect | include/pam/map_ops.h:214-242 | the intersection map, with op on the two values |
| PlainMap.Difference | include/pam/map_ops.h:244-261 | the entries of b1 whose keys b2 lacks |
| PlainMap.Insert | include/pam/map_ops.h:377-410 | the map with the new entry, f of old and new value where the key was there |
| PlainMap.Delete | include/pam/map_ops.h:446-465 | the map without the key; one entry fewer if it was there |
| SortedMaps.SameMap | include/pam/map_ops.h:19-25 | two ordered runs that agree on every key are equal, so the key-by-key statements determine the entries |
| HeapMap.CopyIf | include/pam/gc.h:76-106 | a node with the entry of b for the caller to rewrite: b itself, with memory as it was, if it is not to be copied, and otherwise a new one; the reference to b is given up or, if b was borrowed, left alone |
| HeapMap.IncIf | include/pam/gc.h:108-112 | a borrowed child gains a reference, an owned one passes on its own |
| HeapMap.Enter | include/pam/map_ops.h:380-380 | the test for copying: either the node will be copied and its children are borrowed, or its owner takes it apart |
| HeapMap.Single | include/pam/basic_node.h:44-48 | a node with one entry, held by its caller |
| HeapMap.Rejoin | include/pam/map_ops.h:385-402 | the node that CopyIf gives over the new children, joined; if b is not to be copied and the parts are apart, made of their nodes |
| HeapMap.Insert | include/pam/map_ops.h:377-410 | on the heap, the tree PlainMap.Insert specifies, with an owned or a borrowed argument; borrowed and shared trees keep their contents, counts stay exact. If every node of an owned tree has one reference, all are kept and as many are allocated as the tree grows by |
| HeapMap.InsertNode | include/pam/map_ops.h:380-409 | the case of a nonempty tree |
| HeapMap.SplitCopy | include/pam/map_ops.h:92-116 | splits a borrowed tree by copying its search path; the tree stays as it was |
| HeapMap.Split | include/pam/map_ops.h:118-148 | splits an owned tree into the two that PlainMap.SplitAt specifies, copying from the first shared node on; if every node has one reference, nothing is allocated, one node is freed if the key was found, and both results are made of the nodes of the tree |
| HeapMap.SplitOwned | include/pam/map_ops.h:128-143 | the case of a root with one reference |
| HeapUnion.UnionBelow | include/pam/map_ops.h:201-205 | the split by the key of b2 and the two unions of the pieces with its children |
| HeapUnion.UnionEnd | include/pam/map_ops.h:207-209 | release of a copied b2, the combined value and the join |
| HeapUnion.Union | include/pam/map_ops.h:187-210 | on the heap, the tree PlainMap.Union specifies, with an owned or borrowed second argument; what becomes unreachable is freed and nothing else changes |
| HeapUnion.UnionNodes | include/pam/map_ops.h:197-209 | the case of two nonempty trees: split, two recursive unions, release and join |
| HeapDelete.Join2 | include/pam/sequence_ops.h:60-80 | on the heap, the tree PlainMap.Join2 specifies, with either argument owned or borrowed |
| HeapDelete.JoinIntoFirst | include/pam/sequence_ops.h:64-69 | the larger first tree keeps its root entry |
| HeapDelete.JoinIntoSecond | include/pam/sequence_ops.h:70-75 | the mirror image |
| HeapDelete.DecIf | include/pam/gc.h:114-123 | gives up an owned node, with its children if it was to be copied and without if they were taken over; a borrowed one is left alone |
| HeapDelete.Delete | include/pam/map_ops.h:446-465 | on the heap, the tree PlainMap.Delete specifies; borrowed and shared trees keep their contents, what becomes unreachable is freed |
| HeapAlgebra.Intersect | include/pam/map_ops.h:214-242 | on the heap, the tree PlainMap.Intersect specifies; the owned arguments are given up whole |
| HeapAlgebra.IntersectNodes | include/pam/map_ops.h:220-241 | the case of two nonempty trees |
| HeapAlgebra.Difference | include/pam/map_ops.h:244-261 | on the heap, the tree PlainMap.Difference specifies, with an owned or borrowed first argument |
| HeapAlgebra.DifferenceNodes | include/pam/map_ops.h:247-260 | the case of two nonempty trees |
| PlainBatch.FromArray | include/pam/sequence_ops.h:225-238 | a balanced tree over exactly the sorted array |
| PlainBatch.MultiInsert | include/pam/map_ops.h:550-578 | balanced, and key by key the union with the array, op of old and new value |
| PlainBatch.MultiDelete | include/pam/map_ops.h:487-521 | balanced, without the keys of the array |
| PlainBatch.Filter | include/pam/sequence_ops.h:176-192 | balanced, with exactly the entries that pass |
| PlainBatch.UpTo | include/pam/map_ops.h:272-278 | the keys up to the bound |
| PlainBatch.From | include/pam/map_ops.h:280-286 | the keys from the bound on |
| PlainBatch.Range | include/pam/map_ops.h:288-293 | exactly the entries of the closed interval |
| HeapBatch.FromArray | include/pam/sequence_ops.h:225-238 | on the heap, the tree PlainBatch.FromArray specifies; every other reference keeps what it held |
| HeapBatch.MultiInsert | include/pam/map_ops.h:550-578 | on the heap, the tree PlainBatch.MultiInsert specifies, with an owned or borrowed argument; shared and borrowed trees keep their contents and counts stay exact |
| HeapBatch.MultiDelete | include/pam/map_ops.h:487-521 | the same for PlainBatch.MultiDelete; what becomes unreachable is freed |
| HeapBatch.Filter | include/pam/sequence_ops.h:176-192 | the same for PlainBatch.Filter; unlike aug_filter it loses nothing |
| HeapBatch.UpTo | include/pam/map_ops.h:272-278 | copies the search path of a borrowed tree and shares the subtrees to its left |
| HeapBatch.From | include/pam/map_ops.h:280-286 | the mirror image |
| HeapBatch.Range | include/pam/map_ops.h:288-293 | on the heap, the tree PlainBatch.Range specifies; the map that it is taken from stays as it is |
| VersionList.StepKeepsInv | examples/graphs/aspen/versioned_graph.h:105-206 | every atomic step of every thread keeps: a live word is timestamp * 2^32 + 1 + number of holders |
| VersionList.Safety | examples/graphs/aspen/versioned_graph.h:105-206 | in every interleaving of readers and one writer: a held version is the one looked up and is not freed, nothing is freed twice, the latest is not freed, and live words carry their version timestamp |
| VersionList.NothingLeaks | examples/graphs/aspen/versioned_graph.h:133-163 | in every interleaving a live version that is not the latest has a holder or a thread that is releasing it |
| VersionList.OnlyTheLatestRemains | examples/graphs/aspen/versioned_graph.h:133-163 | once all threads are idle exactly the latest version is live with count 1 and all earlier ones have been freed once |
| VersionList.EveryOldVersionIsFreed | examples/graphs/aspen/versioned_graph.h:105-206 | from every reachable state, in every run of enough rounds in which each thread steps at least once, whatever the threads do to each other, every version that is not the latest at the start is freed exactly once |
| VersionList.FairRunFrees | examples/graphs/aspen/versioned_graph.h:105-163 | the same from any state of the invariant for a version that somebody is at work on; the number of rounds depends on the number of threads only |
| VersionList.WorkFalls | examples/graphs/aspen/versioned_graph.h:105-163 | each step of a thread at work on an old version lowers a measure that no other step raises |
| VersionList.ReleaserFrees | examples/graphs/aspen/versioned_graph.h:140-160 | a thread that is releasing an unheld old version and runs alone frees it within four steps |
| VersionList.AcquiresAlone | examples/graphs/aspen/versioned_graph.h:105-131 | from every state of the invariant, an idle thread that runs alone holds the latest version after six steps; its count is one higher and nothing else has changed |
| VersionList.AcquireFailsExactlyWhen | examples/graphs/aspen/versioned_graph.h:117-129 | whatever the others do in between, the compare-and-swap succeeds if and only if the word is still the one that was read and counts a reference; if somebody changed it the thread tries again, and if it counts none the thread looks the version up again |
| VersionList.PublishesAlone | examples/graphs/aspen/versioned_graph.h:165-184 | from every state of the invariant, the idle writer that runs alone has raised the current timestamp by one after eight steps; the new version is live with count 1 and the writer still holds the one before |
| VersionList.ReleasesAlone | examples/graphs/aspen/versioned_graph.h:133-163 | the last holder of an old version that runs alone frees it and erases its slot in seven steps, and another holder gives its reference up in one |
| VersionList.WriterRound | examples/graphs/aspen/versioned_graph.h:165-184 | so a round of the writer that nobody else interferes with publishes the next version and frees the one before it, and changes nothing else |
| VersionList.PublishKeepsInv | examples/graphs/aspen/versioned_graph.h:208-217 | publishing without holding a base version, while the writer is idle, keeps the invariant that safety rests on |
| VersionList.PublishKeepsNoLeak | examples/graphs/aspen/versioned_graph.h:208-217 | if the previous version is held or being released then nothing leaks, then or in any run that follows |
| VersionList.PublishFairly | examples/graphs/aspen/versioned_graph.h:208-217 | in every fair run that follows, the previous version is freed if and only if some thread had looked it up and was not done with it |
| VersionList.PublishLeaks | examples/graphs/aspen/versioned_graph.h:208-217 | and some run frees it if and only if that is so |
| VersionList.PublishOverIdle | examples/graphs/aspen/versioned_graph.h:208-217 | for example, published while nobody reads: version 0 is never freed |
| VersionList.PublishAbandons | examples/graphs/aspen/versioned_graph.h:208-217 | if nobody is at work on the previous version it is abandoned |
| VersionList.LeakIsForGood | examples/graphs/aspen/versioned_graph.h:105-206 | an abandoned version stays live in every later interleaving |
| VersionList.Halves | examples/graphs/aspen/versioned_graph.h:13-19 | the timestamp is above the lower 32 bits of the packed word and the count is in them, and both come back |
| Traversal.EdgeMapSparse | examples/graphs/aspen/traversable_graph.h:80-126 | hands exactly the edges out of the frontier to updateAtomic, each once, and outputs the targets for which it returned true |
| Traversal.EdgeMapDense | examples/graphs/aspen/traversable_graph.h:177-221 | hands over edges from the frontier only while cond is true of their targets, each once; one is left out only after cond failed |
| Traversal.EdgeMap | examples/graphs/aspen/traversable_graph.h:270-316 | goes through the targets exactly when the frontier is dense and more than a tenth of the vertices, or when it and its out-edges are more than a twentieth of the edges and the flag allows it; either way the result is that of one trace of updates that covers every edge whose target was not closed |
| Traversal.ToSparse | examples/graphs/aspen/vertex_subset.h:300-311 | the same members as a list without repetitions, in increasing order if they came as flags |
| Traversal.ToDense | examples/graphs/aspen/vertex_subset.h:314-323 | the same members as flags |
| Bfs.Search | examples/graphs/algorithms/BFS.h:22-60 | round r starts from exactly the vertices at distance r; parents are set exactly on reachable vertices and point one ring nearer along an edge, for sparse and dense rounds alike |
| Bfs.Round | examples/graphs/algorithms/BFS.h:41-57 | one traversal from the ring at distance r reaches exactly the ring at distance r + 1 |
| Bfs.BallIsWalks | examples/graphs/algorithms/BFS.h:22-60 | the vertices within k rounds are those that a walk of at most k edges reaches |
| Components.FindComponents | examples/graphs/algorithms/CC.h:68-106 | terminates with each label the least vertex of its component |
| Components.Round | examples/graphs/algorithms/CC.h:87-103 | a round keeps labels sound and either lowers their sum or ends with no output |
| Components.LabelsDecide | examples/graphs/algorithms/CC.h:68-106 | two vertices have equal labels exactly when they are connected |
| Components.Synchronise | examples/graphs/algorithms/CC.h:36-44 | brings the previous labels of active vertices up to date, which makes the two label arrays equal |
| Mis.MaximalIndependentSet | examples/graphs/algorithms/MIS.h:124-206 | terminates with exactly the set that choosing greedily in the order of perm gives, each vertex being counted in finished once |
| Mis.ChosenIsGreedy | examples/graphs/algorithms/MIS.h:124-206 | the recursive greedy choice is what going through the vertices in order builds |
| Mis.GreedyIsMaximalIndependent | examples/graphs/algorithms/MIS.h:124-206 | that set is independent and maximal |
| Mis.Removal | examples/graphs/algorithms/MIS.h:177-180 | the first traversal removes exactly the live neighbours of roots, and none of them belongs to the greedy set |
| Mis.Round | examples/graphs/algorithms/MIS.h:169-204 | after a round every live vertex waits for exactly its earlier live neighbours, and the new roots are those that wait for none |
| Mis.OneRound | examples/graphs/algorithms/MIS.h:169-204 | the loop body keeps that, counts each vertex once, and leaves fewer live vertices |
| Mis.SomeRoot | examples/graphs/algorithms/MIS.h:170-170 | while a vertex is live the root set is not empty, as the source asserts |
| Mis.CountBefore | examples/graphs/algorithms/MIS.h:143-155 | the priority is the number of neighbours earlier in the order |
| BlockedMap.ExposesExactlyWhen | include/cpam/sequence_ops.h:27-42 | for every B >= 1 a block is taken apart into well-formed sides if and only if B >= 2 or the block has one entry |
| BlockedMap.ExposeNeedsTwo | include/cpam/sequence_ops.h:27-42 | for example, with B = 1 taking a block of two apart leaves a tree that is not well-formed |
| BlockedMap.Expose | include/cpam/sequence_ops.h:62-98 | for every B >= 1: the root entry and two sides with the same entries, which are well-formed if and only if the block can be taken apart |
| BlockedMap.ToTree | include/cpam/sequence_ops.h:27-42 | a tree over the given entries; its join never has to rotate |
| BlockedMap.SplitAt | include/cpam/map_ops.h:142-159 | well-formed trees of the entries below and above k, and the entry under k, for B >= 2 and for B = 1 if the search meets no block of two |
| BlockedMap.SplitNeedsTwo | include/cpam/map_ops.h:142-159 | for example, with B = 1 splitting at the larger key of a block of two leaves a left side that is not well-formed |
| BlockedMap.Join2 | include/cpam/sequence_ops.h:335-363 | for every B >= 1, two well-formed trees on the two sides of a key become one over both; every packing is within 7B |
| BlockedMap.Union | include/cpam/map_ops.h:271-297 | for B >= 2, well-formed, with each key of either map, and on common keys op of the two values, in the documented order where the key is dealt with at a node and swapped where it is dealt with in a base case |
| BlockedMap.UnionInOrderExactlyWhen | include/cpam/map_ops.h:271-297 | a common key holds op in the documented order exactly where it is dealt with at a node or op commutes on its two values |
| BlockedMap.UnionIsUnion | include/cpam/map_ops.h:271-297 | where op commutes on the two values of a key, the result holds op of them there |
| BlockedMap.SmallUnion | include/cpam/map_ops.h:276-278 | for at most 8B+2 entries together, each common key holds op of the second value and the first |
| BlockedMap.LargeUnion | include/cpam/map_ops.h:279-296 | for more, the top entry of the second tree, the root of a node or the middle of a block, holds op of the first value and the second if the first tree has its key |
| BlockedMap.SmallUnionSwaps | include/cpam/map_ops.h:276-278 | on trees of at most 8B+2 entries together the result has the documented argument order exactly where op commutes |
| BlockedMap.SmallUnionKeepsFirst | include/cpam/map_ops.h:276-278 | for example, with the op that keeps its second argument the union of two maps of one entry keeps the first |
| BlockedMap.Intersect | include/cpam/map_ops.h:301-337 | for B >= 2, well-formed, exactly the common keys, op in the documented order at nodes and swapped in base cases |
| BlockedMap.IntersectInOrderExactlyWhen | include/cpam/map_ops.h:301-337 | the same condition for intersection |
| BlockedMap.IntersectIsIntersection | include/cpam/map_ops.h:301-337 | where op commutes, the intersection map |
| BlockedMap.SmallIntersect | include/cpam/map_ops.h:306-308 | for at most 8B+2 entries together, op of the second value and the first |
| BlockedMap.LargeIntersect | include/cpam/map_ops.h:309-336 | for more, op of the first value and the second at the top entry of the second tree |
| BlockedMap.Difference | include/cpam/map_ops.h:340-363 | well-formed, the entries of b1 whose keys b2 lacks |
| BlockedMap.Join | include/cpam/sequence_ops.h:100-105 | well-formed and ordered, with the values of both sides and the middle entry |
| BlockedMap.PackPair | include/cpam/sequence_ops.h:340-342 | two trees packed into blocks without a middle entry |
| BlockedMap.UnionBase | include/cpam/map_ops.h:1395-1451 | well-formed, the union key by key with the argument order reversed |
| BlockedMap.IntersectBase | include/cpam/map_ops.h:1503-1549 | well-formed, the intersection key by key with the argument order reversed |
| BlockedMap.DifferenceBase | include/cpam/map_ops.h:1453-1500 | well-formed, the difference key by key |
| BlockedMap.MergeMeans | include/cpam/map_ops.h:1395-1451 | the merged run is sorted and is the union key by key |
| BlockedMap.MergeIntersectMeans | include/cpam/map_ops.h:1503-1549 | the same for intersection |
| BlockedMap.MergeDifferenceMeans | include/cpam/map_ops.h:1453-1500 | the same for difference |
| BlockedBatch.BinarySearch | include/cpam/utils.h:138-148 | the number of keys below k |
| BlockedBatch.FromArray | include/cpam/sequence_ops.h:714-730 | a well-formed tree over the sorted array |
| BlockedBatch.MultiInsert | include/cpam/map_ops.h:1065-1095 | well-formed, and key by key the union of the tree with the array |
| BlockedBatch.InsertBase | include/cpam/map_ops.h:1343-1392 | well-formed, and key by key the union with the array |
| BlockedBatch.DeleteBase | include/cpam/map_ops.h:898-940 | well-formed, without the keys of the array |
| BlockedBatch.MultiInsertIsFold | include/cpam/map_ops.h:1065-1095 | the same entries as inserting the array entries one by one |
| BlockedBatch.MultiDelete | include/cpam/map_ops.h:943-974 | well-formed, without the keys of the array |
| BlockedBatch.MultiDeleteIsFold | include/cpam/map_ops.h:943-974 | the same entries as deleting the keys one by one |
| BlockedBatch.MultiFind | include/cpam/map_ops.h:1295-1315 | slot offset + i holds the value of key i if the tree has it and is untouched otherwise |
| BlockedBatch.FindInBlock | include/cpam/map_ops.h:1275-1292 | one pass over the block does that for its keys |
| BlockedLoops.MergeRuns | include/cpam/map_ops.h:1413-1442 | the merge loop writes the merged run |
| BlockedLoops.IntersectRuns | include/cpam/map_ops.h:1522-1541 | the loop writes the common entries |
| BlockedLoops.DeleteRuns | include/cpam/map_ops.h:914-931 | the loop writes the entries without the given keys |
| BlockedLoops.UnionBc | include/cpam/map_ops.h:1395-1451 | the union base case, through two arrays, is the tree BlockedMap.Union uses |
| BlockedLoops.IntersectBc | include/cpam/map_ops.h:1503-1549 | the same for intersection |
| BlockedLoops.DifferenceBc | include/cpam/map_ops.h:1453-1500 | the same for difference |
| BlockedLoops.InsertBc | include/cpam/map_ops.h:1343-1392 | the same for batch insertion |
| BlockedLoops.DeleteBc | include/cpam/map_ops.h:898-940 | the same for batch deletion |
| BlockInsert.InsertCompressed2 | include/cpam/map_ops.h:578-606 | writes at most 2B+1 entries, what PlacedAt says |
| BlockInsert.PlacedAt | include/cpam/map_ops.h:578-606 | the block with the new entry in place of the first one that is not below it, combined with that one only if their keys are equal, or added at the end |
| BlockInsert.InsertsExactlyWhen | include/cpam/map_ops.h:578-606 | the pass is an insertion exactly when the key is already in the block or lies above all of it |
| BlockInsert.InsertBeforeLoses | include/cpam/map_ops.h:578-606 | for example, inserting key 1 before a block that starts at key 2 loses the entry of key 2 |
| RedBlack.RightJoin | include/pam/red_black_tree.h:130-150 | keeps black heights and entries; its spine may end in two or three reds, as stated case by case |
| RedBlack.LeftJoin | include/pam/red_black_tree.h:152-172 | the mirror image |
| RedBlack.FixRightWorks | include/pam/red_black_tree.h:143-149 | under a black node the step back makes a valid tree of whatever the join leaves on the right |
| RedBlack.FixLeftWorks | include/pam/red_black_tree.h:165-171 | the mirror image |
| RedBlack.NodeJoin | include/pam/red_black_tree.h:74-109 | any two valid trees with roots of either colour: a valid tree over t1, k, t2 |
| RedBlack.ThreeReds | include/pam/red_black_tree.h:130-150 | three reds in a row do occur before the last step |
| RedBlack.HeightIsLogarithmic | include/pam/red_black_tree.h:34-57 | the black height is at most one plus the logarithm of the number of entries plus one |
| RedBlackNodes.RightJoin | include/pam/red_black_tree.h:130-150 | recolouring and relinking nodes in place builds the tree RedBlack.RightJoin specifies, from the nodes given |
| RedBlackNodes.LeftJoin | include/pam/red_black_tree.h:152-172 | the mirror image |
| RedBlackNodes.NodeJoin | include/pam/red_black_tree.h:74-109 | in place, the valid tree over t1, k, t2 |
| DiffEncoding.DecEnc | include/cpam/byte_encode.h:8-44 | a positive number is read back and reading stops where the next one begins |
| DiffEncoding.EncDigits | include/cpam/byte_encode.h:26-44 | byte i is digit i of the number in base 128, with the top bit set on all bytes but the last |
| DiffEncoding.EncLength | include/cpam/byte_encode.h:26-44 | and there are no more bytes than digits |
| DiffEncoding.FirstKeyBytes | include/cpam/compression.h:50-50 | a block starts with its first key, whole: byte i is digit i in base 256 |
| DiffEncoding.GapBytesAt | include/cpam/compression.h:59-69 | then each key stands as its distance from the one before, wrapped around if it is smaller, after the keys before it |
| DiffEncoding.EncodeUnsigned | include/cpam/byte_encode.h:26-44 | writes the LEB128 bytes of the number (none for zero) and nothing before them |
| DiffEncoding.DecodeUnsigned | include/cpam/byte_encode.h:8-23 | reads one number, modulo the size of its type |
| DiffEncoding.EncIsShort | include/cpam/compression.h:27-27 | a number of s bytes takes at most the 2s bytes of the scratch array |
| DiffEncoding.GapsReadBack | include/cpam/compression.h:78-89 | keys of which no two neighbours are equal are read back, in any order, whatever follows them |
| DiffEncoding.ReadBackExactlyWhen | include/cpam/compression.h:42-89 | any keys are read back exactly when no two neighbours are equal |
| DiffEncoding.EqualKeysAreLost | include/cpam/compression.h:42-89 | for example, the second of two equal keys leaves no bytes |
| DiffEncoding.EncodedSize | include/cpam/compression.h:26-40 | exactly the number of bytes that encode writes, for all keys of s bytes |
| DiffEncoding.Encode | include/cpam/compression.h:42-75 | the key bytes and the values, for all keys of s bytes, with gaps in unsigned arithmetic |
| DiffEncoding.Decode | include/cpam/compression.h:78-89 | the entries that the bytes and values stand for |
| DiffEncoding.EncodeThenDecode | include/cpam/compression.h:26-89 | encode followed by decode returns the block if no two neighbouring keys are equal |
| NeighborEncoding.FirstReadBack | examples/graphs/aspen/compression.h:16-82 | for all vertices, even when the distance wraps in 32 bits, the first neighbour is read back |
| NeighborEncoding.FirstFields | examples/graphs/aspen/compression.h:52-83 | the first byte holds the low six bits of the distance, whether the target is below the source and whether more follows; then comes the rest of the distance |
| NeighborEncoding.ListReadBackExactlyWhen | examples/graphs/other_systems/aspen/graph/tree_plus/compressed_iter.h:56-96 | a sorted adjacency list is read back exactly when no neighbour is repeated |
| NeighborEncoding.CompressFirstNeighbor | examples/graphs/aspen/compression.h:52-83 | writes six bits, a sign bit and the rest of the distance |
| NeighborEncoding.ReadFirstNeighbor | examples/graphs/aspen/compression.h:16-32 | reads what those bytes stand for |
| IndexEncoding.ReadsBackExactlyWhenPositive | examples/index/index_encoder.h:42-93 | a list of byte-coded numbers is read back exactly when none is zero |
| IndexEncoding.BlockReadBackExactlyWhen | examples/index/index_encoder.h:42-93 | a block of postings is read back exactly when every value is positive |
| IndexEncoding.BytesAt | examples/index/index_encoder.h:42-77 | the first key in four bytes, its digits in base 256 with the lowest first, and then one byte-coded number after another |
| IndexEncoding.PairAt | examples/index/index_encoder.h:58-72 | for each posting after the first its gap and then its value |
| IndexEncoding.Encode | examples/index/index_encoder.h:42-77 | writes the first key, gaps and values, and returns the in-order fold of the augmented values |
| IndexEncoding.EncodedSize | examples/index/index_encoder.h:23-40 | exactly the number of bytes that encode writes |
| IndexEncoding.Decode | examples/index/index_encoder.h:80-93 | what encode wrote comes back |
| IndexEncoding.Find | examples/index/index_encoder.h:113-126 | the posting with the key if the block has one, none otherwise |
| AugSums.AugIsFold | include/pam/augmented_node.h:28-38 | for every associative combine the cached value of every tree without empty blocks, plain or blocked, is the in-order fold of combine over its entries |
| AugSums.WellFormedIsSolid | include/cpam/weight_balanced_tree.h:61-92 | the trees of CPAM have no empty blocks |
| AugSums.AugIsTotal | include/pam/augmented_node.h:28-38 | for a commutative combine with a unit that is what the entries contribute together |
| AugSums.AugSumRight | include/pam/augmented_ops.h:34-49 | on the heap: start plus what the keys at or above the bound contribute, given that no key exceeds the upper end |
| AugSums.AugSumLeft | include/pam/augmented_ops.h:59-70 | the mirror image |
| AugSums.RangeRoot | include/pam/map_ops.h:263-270 | the topmost node with a key in the range; the rest contributes nothing |
| AugSums.AugSumRange | include/pam/augmented_ops.h:72-82 | start plus what exactly the keys of the closed range contribute, for every accumulator that treats cached values like their entries |
| AugSums.AugRange | include/pam/augmented_ops.h:72-82 | the fold of combine over exactly the entries of the closed range |
| AugSelect.Select | include/pam/augmented_ops.h:84-92 | the first entry that fails f, or null if all pass, for f that holds of a combination exactly when it holds of both parts |
| HeapFilter.Filter | include/pam/augmented_ops.h:94-110 | on the heap, the tree AugSelect.Filter specifies; some reference is lost, that is neither passed on nor released, if and only if the argument is owned and, going down from it through nodes with one reference, a subtree is met that fails f, which counts and cached values before the call decide; all that is lost are nonempty trees of its entries that fail f, and the argument itself is lost exactly when it fails f as a whole |
| HeapFilter.LosesNoneStays | include/pam/augmented_ops.h:100-102 | filtering the left child does not change whether the right one will lose anything |
| HeapFilter.KeepsLosesNone | include/pam/augmented_ops.h:94-110 | nothing is lost, however nodes are shared, if no subtree fails f |
| HeapFilter.OneEntryIsLost | include/pam/augmented_ops.h:94-110 | for example, the new node of a one-entry map that fails f stays in memory |
| HeapFilter.InnerIsLost | include/pam/augmented_ops.h:94-110 | and of two entries, where the root passes and the node below it fails: that node is lost although the argument is not |
| HeapFrames.EverythingIsSafe | include/pam/gc.h:32-43 | all nodes that other references reach can be lent to whoever consumes one reference |
| HeapFrames.StillReached | include/pam/gc.h:32-43 | after a call that consumes a tree of lower keys, every node that leads to a higher tree is one that the others reached before |
| HeapFrames.CountStays | include/pam/gc.h:21-52 | and the count of each node of such a tree is what it was |
| AugSelect.Filter | include/pam/augmented_ops.h:94-110 | balanced and the same map as a plain filter, for f that holds of a combination exactly when it holds of a part |
| RangeTree.Inner | examples/range_query/range_tree.h:48-55 | the cached inner map holds exactly the points of the subtree with swapped coordinates |
| RangeTree.AugIsInner | examples/range_query/range_tree.h:43-56 | what the nodes cache is that map |
| RangeTree.InnerTotal | examples/range_query/range_tree.h:51-54 | sums over the inner map are sums over the points |
| RangeTree.CachedSum | examples/range_query/range_tree.h:134-142 | a cached inner map adds the weights of exactly the points of the band, for subtrees inside the outer range |
| RangeTree.InnerRange | examples/range_query/range_tree.h:134-142 | aug_range of an inner map on its heap, read from cached sums, is the sum over the range of its points |
| RangeTree.QuerySum | examples/range_query/range_tree.h:134-148 | the sum of the weights of exactly the points with x1 <= x <= x2 and y1 <= y <= y2 |
| IntervalMap.CachesFold | examples/interval/intervalTree.cpp:34-43 | the combine of intervals is associative, so every subtree caches the in-order fold of its intervals |
| IntervalMap.CachesLatest | examples/interval/intervalTree.cpp:34-43 | a nonempty subtree caches, of its intervals that none outlasts, the one that starts last |
| IntervalMap.AugLeft | include/pam/augmented_ops.h:59-70 | on the heap, from cached values: the interval that starts at or before p and ends last, or (0, 0); of several that end together, the one that the order of the loop decides on |
| IntervalMap.Stab | examples/interval/intervalTree.cpp:73-79 | on the heap: true exactly when some stored interval contains p, for p and endpoints at least 0 |
| IntervalMap.ReportAll | examples/interval/intervalTree.cpp:87-96 | on the heap: every stored interval that contains p, once, in nonincreasing right endpoint; the copy that is taken apart is given up, and the map and all other references are as before |
| RobustPrune.RobustPrune | examples/diskann/index.h:500-545 | at most maxDeg candidates other than p; all of them if they fit, else the only list that has the properties stated for Prune |
| RobustPrune.ShortKeepsAll | examples/diskann/index.h:500-511 | a list that fits is kept whole, but for p |
| RobustPrune.ShortInOrder | examples/diskann/index.h:500-511 | what is kept are the slots that are not p and not the same as the slot before, each once and in their order |
| RobustPrune.ShortIsDistinctExactlyWhen | examples/diskann/index.h:500-511 | and without repetitions exactly when equal candidates are next to each other after sorting |
| RobustPrune.ShortRepeats | examples/diskann/index.h:500-511 | for example, one listed twice around another at the same distance is kept twice |
| RobustPrune.Prune | examples/diskann/index.h:511-545 | at most maxDeg candidates from increasing slots, none of which covers a later one; up to the last one kept, or to the end if the list is not full, every candidate is p, kept, or covered by one kept from an earlier slot |
| RobustPrune.PruneMeans | examples/diskann/index.h:511-545 | kept neighbours are distinct, in nondecreasing distance, and alpha d(i, j) > d(p, j) for i before j; a candidate c that was passed over is p or has alpha d(i, c) <= d(p, c) for a nearer kept i |
| RobustPrune.PruneIsDetermined | examples/diskann/index.h:511-545 | the candidates in their order determine the list that is kept |

## Left out

- BlockedMap.ToTree: takes the balance test of `regular_node_join` and shows that it never asks for a rotation, instead of calling the join.
- HeapClass.Heap.MakeNode: the fields the source leaves unset hold zero until they are assigned; nothing reads them.
- HeapClass.Heap.DecrementRecursive: the two children are released one after the other, not in parallel.
- RangeTree.QuerySum: the outer tree caches inner maps as values, not as references to other trees (InnerRange runs the inner query on a heap of its own), and sums do not wrap; coordinates are 32-bit unsigned, paired into one integer that orders as the pair does.
- RobustPrune.Prune: starts from candidates that have been gathered and sorted, and assumes d(x, x) = 0 and nonnegative distances.
- VersionList.ReleaserFrees: assumes that no other thread steps in between, as AcquiresAlone, PublishesAlone, ReleasesAlone and WriterRound do; EveryOldVersionIsFreed does without.
- CPAM's split, expose, union, intersection, difference and batch operations are stated on values and, for their base cases, on arrays; reference counting is shown for both joins and for PAM's map operations. CPAM's expose gives up its reference to a shared node while the node's children are still borrowed; that is sound while somebody else holds the node, but in a union the other holder may be the other argument, whose nodes are reused, and the contracts here do not say which old nodes a result may share.
- Which nodes are reused when only some of them are shared, and by the map operations other than split and insert: their contracts say what every tree and count becomes, not how many nodes they allocate.
- PAM's remaining batch operations (the `_map` variants, multi_update, range_num, insert_lazy) on shared nodes.
- Fork-join parallelism in tree and graph code: the branches run in sequence. Edge updates run one at a time, in the order of the loops; the state that update functions change is passed along as a value.
- Parallel, concurrent updates of reference counts.
- Floating point: ratio, beta and the upper threshold are the exact fractions they stand for; distances are reals.
- Machine integers: sizes, counts and timestamps are unbounded, and so is the red-black height, which the source keeps in eight bits. Keys of maps are integers; byte codes and vertex identifiers have their widths.
- Slot reuse in the version table: the word test on lines 143-146 of versioned_graph.h does not compare timestamps, so the model keys slots by timestamp and assumes that a slot is not reused for another one while a thread still refers to it. The hash table itself (sequentialHT) is a map.
- More than one writer, and the graph that a version stands for.
- Red-black trees with shared nodes: a copied node does not carry its colour.
- `finalize`, which allows one block below B at the root, and B = 1 for the operations that take blocks apart or make a regular node of one entry (union, intersection, difference, from_array and the batches, and split where it meets a block of two): ExposesExactlyWhen and SplitNeedsTwo say why.
- aug_filter_bc, aug_sum_left and aug_sum_range on blocks, take, subseq and query_count of CPAM, whose behaviour at edges differs from the plain specification.
- edgeMap with cond only tested by the dense traversal is used for updates that are safe without it; PageRank and betweenness centrality are not modelled.
- AVL trees, treaps, sequence operations without keys, node statistics, printing, allocators, I/O, command lines and benchmarks.
- Internals of parlay: sorting, packing, scanning and filtering are their specifications.

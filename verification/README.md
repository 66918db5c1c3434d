# pmemkv's experimental ordered and hashed engines

This project models four containers of pmemkv in Dafny and proves that each of them is a
map from keys to values, in every state its operations can lead to.

| engine | files | what is modelled |
|---|---|---|
| stree | `stree*.dfy` | the persistent B+ tree: leaves with an unsorted slot array behind a sorted index array, doubly linked; inner nodes whose separators are pointers to keys inside leaves |
| tree3 | `tree3*.dfy` | the volatile B+ tree over an unordered persistent list of leaves, and the recovery that rebuilds the tree from the list |
| heterogeneous_radix | `hetero_radix*.dfy`, `ordered_cache.dfy`, `merged_iterator.dfy` | the DRAM cache, the FIFO log and the background thread over a sorted persistent map, and the iterator that merges cache and map |
| robinhood | `robinhood*.dfy` | open addressing with displacement, tombstones that keep their probe distance, and resize |

`keys.dfy` says what a key is: its place in the strict total order by which the container
compares keys.

## How to read the models

**stree.** A persistent pointer is an offset, so a memory image is a value (`StreeTree.Mem`):
maps from addresses to leaves and inner nodes with their whole arrays, dead slots included.
`Stree.BTree` is a class whose methods overwrite the image step by step, as the code does, and
which keeps a ghost log of the images at transaction boundaries. The invariant is flat: a ghost
view numbers the leaves along their chain and gives every node the interval of leaf numbers
below it; a separator points to the front entry of the leaf at which its right child starts.
`StreeLeaf.LeafNode` and `StreeInner.InnerNode` are the nodes over real arrays; their loops are
proved equal to the functions on values that the tree uses. Capacity is a parameter of at least 3.

**tree3.** The pool of persistent leaves and the volatile tree are values held by the class
`Tree3.Engine`. While InnerUpdateAfterSplit climbs, the tree has a gap: a node that was split
and is not yet known to its parent, or a node with five keys. The invariant is stated for a tree
with such a gap and the three steps move it upwards until it closes.

**heterogeneous_radix.** A step system with one user thread (`radix.cc` line 490 registers one
worker) and one background thread. Every load, store and compare-exchange of a cache cell, every
update of the tree, the publication of a log entry and the release of a batch is one step, and a
crash may happen at any of them. The radix tree is a map to nodes that have addresses, so that a
dangling pointer would be seen. `HeteroRadixCalls` puts the steps of one call together: what a whole put,
get or remove answers and does, with the background thread at work in between. exists is a get.

**robinhood.** `RobinHoodTable.Walk` is the loop of insert_helper in both modes: with writes made
at once and with writes queued until the end while the loop reads the old table.
`RobinHood.Hashmap` is the class with the arrays.

## Assumptions

- Comparators are strict total orders on keys. Hash functions are parameters: robinhood's mixer is
  any function on 64-bit words, tree3's hash any function with values 1 to 255.
- A transaction is one atomic step: a crash sees the memory before it or after it.
- Allocation picks any address that is not in use, and does not fail, except in
  `RobinHood.Hashmap.Rebuild`, where failure is an input.
- In heterogeneous_radix the produce callback runs before the entry can be consumed, entries stay
  intact until the callback of their batch has returned, a restart replays every unreleased entry in
  order, and put values have non-null data. The victim of an eviction is an input: any node that may go.
  The safety results are for runs whose evictions are harmless (`HeteroRadixSafety.Harmless`), which
  `HeteroRadixEvict.HarmlessExactly` shows to be the exact condition.
- An iterator of the radix tree reads the node of its key, and moves on to the next greater key that the
  tree has at that moment, also when its own node has been erased. The tree itself is not part of this
  model.
- A lookup of robinhood may not end. `patience` is the number of rounds after which the model stops
  waiting for it; any number from two laps on gives the same answer.
- The load factor of robinhood is 1/2.

## Findings

Where the code does not do what its interface promises, the project shows a reachable input and says
exactly when the code is right.

| what happens | shown by | exact condition |
|---|---|---|
| heterogeneous_radix: put nulls the cell of its key; the background thread then skips and releases the older entry of the key, and a crash before the new entry is written loses a completed put | `HeteroRadixExamples.CrashCanLosePut` | `HeteroRadixCrash.PutIsDurableIffSettled` |
| heterogeneous_radix: evicting a persistent tombstone that a queued erase still names, for a key that the tree holds, lets that erase take the tombstone of this other key, and once removed the key comes back | `HeteroRadixExamples.EvictionCanReviveKey` | `HeteroRadixEvict.HarmlessExactly` |
| robinhood: tombstones never become unused again; on a small table full of them a successful insert can drop its own key | `RobinHoodExamples.InsertCanDropKey` | `RobinHoodExact.InsertExactly` |
| robinhood: on such a table a successful insert can also put its key in the way of another one, which lookups then miss | `RobinHoodExamples.InsertCanHideKey` | `RobinHoodExact.OrderExactly` |
| robinhood: on a table of tombstones whose homes are the slots after them, the lookup of an absent key does not end | `RobinHoodExamples.LookupCanRunForever` | `RobinHoodTable.LookupStopsExactly` |
| robinhood: hm_rp_remove returns 1, as for an absent key, when the key was removed and the table could not be shrunk | `RobinHoodExamples.RemoveCanReportFailure` | `RobinHood.Hashmap.RemoveEntry` |
| stree: erase replaces a root that has lost its last separator by its only child and never frees it | `StreeLost.RootIsLost` | `Stree.BTree.Erase`: exactly when the root changes |
| stree: lower_bound looks no further than the routed leaf, so count_below, count_equal_above, count_between and the get functions with these ranges are wrong for keys between two leaves | `StreeQueries.CountBelowGoesWrong` | `StreeQueries.CountBelowRight`, `OneBoundRight`, `TwoBoundsRight` |

## Model

| member | source | states |
|---|---|---|
| StreeLeaf.InsertOk | src/engines-experimental/stree/persistent_b_tree.h:663-677 | after insert the index array is a permutation again, the items are the old ones with the new one at its place, and every surviving entry keeps its slot |
| StreeLeaf.RemoveOk | src/engines-experimental/stree/persistent_b_tree.h:897-907 | the same for remove_idx: one item gone, the rest in order and in their slots |
| StreeLeaf.HalvesOk | src/engines-experimental/stree/persistent_b_tree.h:622-645 | move leaves the lower half in place and puts the upper half, in order, into the first slots of the new leaf |
| StreeLeaf.ErasedIs | src/engines-experimental/stree/persistent_b_tree.h:708-717 | erase by key is the removal at the place the search returns, or nothing |
| StreeLeaf.LeafNode.LowerBound | src/engines-experimental/stree/persistent_b_tree.h:649-655 | the position of the first live entry not below the key |
| StreeLeaf.LeafNode.InsertAt | src/engines-experimental/stree/persistent_b_tree.h:665-677 | the in-place insert does to the arrays what the insert on values does |
| StreeLeaf.LeafNode.RemoveIdx | src/engines-experimental/stree/persistent_b_tree.h:897-907 | the in-place shift of the index array does what the removal on values does |
| StreeLeaf.LeafNode.Erase | src/engines-experimental/stree/persistent_b_tree.h:708-717 | find and internal_erase together: the entry of the key goes, and 1 is returned if and only if it was there |
| StreeLeaf.LeafNode.MoveFrom | src/engines-experimental/stree/persistent_b_tree.h:622-645 | the loop that moves the upper half does what the move on values does |
| StreeInner.SplitChildAt | src/engines-experimental/stree/persistent_b_tree.h:1023-1049 | where every old separator and child stands after the new separator and its two children have entered |
| StreeInner.HalvesAt | src/engines-experimental/stree/persistent_b_tree.h:980-1001 | which separators and children each half of a split inner node has; the partition key is in neither |
| StreeInner.DeleteChildAt | src/engines-experimental/stree/persistent_b_tree.h:1056-1069 | where every remaining separator and child stands after one of each was deleted |
| StreeInner.InnerNode.UpdateSplittedChild | src/engines-experimental/stree/persistent_b_tree.h:1023-1049 | the two copy_backward shifts and writes on the arrays equal the function on values |
| StreeInner.InnerNode.MoveFrom | src/engines-experimental/stree/persistent_b_tree.h:980-1001 | the two std::move ranges equal the split on values, and the partition key is the middle one |
| StreeInner.InnerNode.DeleteWithChild | src/engines-experimental/stree/persistent_b_tree.h:1056-1069 | the two std::move shifts equal the deletion on values, stale last places included |
| StreeInner.InnerNode.InheritChild | src/engines-experimental/stree/persistent_b_tree.h:1079-1091 | writes the child left or right of the separator and nothing else |
| StreeInner.InnerNode.ReplaceEntry | src/engines-experimental/stree/persistent_b_tree.h:1008-1012 | replaces one separator and nothing else |
| StreeTree.SepsAscend | src/engines-experimental/stree/persistent_b_tree.h:957-967 | the keys that a node's separator pointers lead to ascend strictly, so that it can be searched |
| StreeTree.FrontsAscend | src/engines-experimental/stree/persistent_b_tree.h:799-800 | front entries ascend along the leaf chain |
| StreeTree.Descend | src/engines-experimental/stree/persistent_b_tree.h:1096-1103 | the child that upper_bound over the separators picks covers the leaf where the key belongs |
| StreeTree.TargetExists | src/engines-experimental/stree/persistent_b_tree.h:2012-2022 | every key belongs to some leaf of a well-formed tree |
| StreeInsert.InsertEntryOk | src/engines-experimental/stree/persistent_b_tree.h:1434-1437 | inserting an absent key into a leaf with room keeps the whole invariant, separators included, and adds exactly that pair |
| StreeSplit.SplitLeafOk | src/engines-experimental/stree/persistent_b_tree.h:1959-1997 | splitting a full leaf below a parent with room keeps the tree well-formed and its listing the same |
| StreeSplitInner.SplitInnerOk | src/engines-experimental/stree/persistent_b_tree.h:1900-1912 | splitting a full inner node below a parent with room keeps the tree well-formed and its listing the same; separators still point to fronts |
| StreeSplitInner.LoneRootSplit | src/engines-experimental/stree/persistent_b_tree.h:1861-1869 | a new root made of key and two children is what splitting the only child of an empty node gives |
| StreePath.PartitionPlace | src/engines-experimental/stree/persistent_b_tree.h:1031-1035 | the lower_bound search in the parent finds the place of the split child for the partition key |
| StreePath.FrontPlace | src/engines-experimental/stree/persistent_b_tree.h:1031-1035 | and for the front key of a new leaf |
| StreePath.SplitPrepares | src/engines-experimental/stree/persistent_b_tree.h:1453-1468 | after node x of the path is split, the child of its parent that leads to the leaf has room and is the parent of the next node of the path |
| StreePath.PathLevels | src/engines-experimental/stree/persistent_b_tree.h:1445-1451 | levels fall strictly along the path, so no node occurs on it twice |
| StreePath.SplitInsertOk | src/engines-experimental/stree/persistent_b_tree.h:1971-1993 | leaf split and insert into one half together: a well-formed tree with one more pair |
| StreeLeafSplit.ParentSearch | src/engines-experimental/stree/persistent_b_tree.h:1983-1985 | with the new pair already inserted, the search in the parent still finds the place of the split leaf |
| StreeFind.FoundIs | src/engines-experimental/stree/persistent_b_tree.h:1477-1485 | the map has a key if and only if the leaf has it at the place the search in the leaf returned, with that value |
| StreeFind.AssignOk | src/engines-experimental/stree.cc:243-249 | overwriting the value of a found entry is a map update and keeps the invariant |
| Stree.BTree.constructor | src/engines-experimental/stree/persistent_b_tree.h:1401-1406 | a new tree is well-formed and empty |
| Stree.BTree.UpperBound | src/engines-experimental/stree/persistent_b_tree.h:1096-1103 | std::upper_bound over separator pointers: everything before is at most the key and everything from there on above it |
| Stree.BTree.GetChild | src/engines-experimental/stree/persistent_b_tree.h:1096-1103 | the child that covers the leaf of the key, at a lower level |
| Stree.BTree.FindLeafToInsert | src/engines-experimental/stree/persistent_b_tree.h:2026-2037 | the leaf where the key belongs and the path of inner nodes from the root to it, each the parent of the next |
| Stree.BTree.SplitRootInner | src/engines-experimental/stree/persistent_b_tree.h:1885-1896 | a transaction: the full root is split under a new root, the map and the leaves stay, and the next split is prepared |
| Stree.BTree.SplitInnerNode | src/engines-experimental/stree/persistent_b_tree.h:1900-1912 | a transaction: the same below a parent that is the true parent and has room |
| Stree.BTree.SplitLeafNode | src/engines-experimental/stree/persistent_b_tree.h:1959-1997 | a transaction: the full leaf is split below such a parent, and exactly the new pair is added |
| Stree.BTree.SplitRootLeaf | src/engines-experimental/stree/persistent_b_tree.h:1918-1953 | the same for a leaf that is the root |
| Stree.BTree.SplitDown | src/engines-experimental/stree/persistent_b_tree.h:1445-1471 | from the lowest node with room, or a new root, every full node is split on the way down; each transaction but the last ends in a well-formed tree with the old map |
| Stree.BTree.TryEmplace | src/engines-experimental/stree/persistent_b_tree.h:1421-1472 | adds the key if and only if it is absent; every transaction boundary is a well-formed tree holding the old map and only the last adds the pair |
| Stree.BTree.Find | src/engines-experimental/stree/persistent_b_tree.h:1477-1485 | what the map holds for the key |
| Stree.BTree.Put | src/engines-experimental/stree.cc:237-252 | a map update, with the same guarantee for all transaction boundaries |
| Stree.BTree.GetPathExt | src/engines-experimental/stree/persistent_b_tree.h:1617-1634 | the path with the siblings of each child taken, and the one inner node whose separator points to the key, if there is one; no second one is met |
| Stree.BTree.GetChildAndSiblings | src/engines-experimental/stree/persistent_b_tree.h:1109-1127 | the child that covers the leaf, its siblings in the node, and the separator next to it |
| Stree.BTree.SuitableEntry | src/engines-experimental/stree/persistent_b_tree.h:1642-1648 | the front entry of the leftmost leaf right of a separator, also in the middle of the transaction |
| StreeErase.RemoveInside | src/engines-experimental/stree/persistent_b_tree.h:1713-1721 | an entry that is not the front of a later leaf goes without a change above |
| StreeErase.RemoveFront | src/engines-experimental/stree/persistent_b_tree.h:1713-1721 | when the front entry of a later leaf goes and its separator is redirected, the invariant holds again |
| StreeErase.OneOwner | src/engines-experimental/stree/persistent_b_tree.h:1626-1630 | no two separators point to the same leaf |
| StreeDelete.DeleteOk | src/engines-experimental/stree/persistent_b_tree.h:1654-1668 | an emptied leaf goes: the chain closes, the parent loses separator and child, the separator further up follows the next leaf; the listing loses exactly that entry |
| StreeCollapse.CollapseRootOk | src/engines-experimental/stree/persistent_b_tree.h:1746-1753 | a root without separators may be replaced by its only child |
| StreeCollapse.CollapseInnerOk | src/engines-experimental/stree/persistent_b_tree.h:1675-1687 | an inner node without separators may give way to its only child, though levels then differ by more than one |
| StreeRemove.OutcomeOk | src/engines-experimental/stree/persistent_b_tree.h:1727-1754 | every outcome of an erase that empties a leaf (parent stays, parent collapses, root replaced) is well-formed and lacks exactly one entry |
| StreeRemove.DeadSlot | src/engines-experimental/stree/persistent_b_tree.h:1741-1745 | writing a separator behind the live ones changes nothing |
| StreeEraseSteps.KnownEnds | src/engines-experimental/stree/persistent_b_tree.h:1695-1758 | the transaction ends in a well-formed tree with the key removed, if any separator that is due is written |
| StreeEraseSteps.WalkFinds | src/engines-experimental/stree/persistent_b_tree.h:1741-1745 | get_suitable_entry, run while the leaf is detached and nothing is freed, finds the separator that is due |
| Stree.BTree.EraseEntry | src/engines-experimental/stree/persistent_b_tree.h:1713-1726 | the erase of an entry whose leaf stays, in one transaction |
| Stree.BTree.EraseLeaf | src/engines-experimental/stree/persistent_b_tree.h:1727-1754 | the erase of the last entry of a leaf, in one transaction |
| Stree.BTree.Erase | src/engines-experimental/stree/persistent_b_tree.h:1695-1758 | removes exactly the key, returns 1 if and only if it was there, keeps the whole invariant, and changes nothing otherwise; every node that goes out of use is freed but a replaced root |
| StreeEraseSteps.KnownLost | src/engines-experimental/stree/persistent_b_tree.h:1675-1753 | a parent that collapses is freed; a root that gives way to its only child stays allocated, and nothing refers to it |
| StreeLost.RootIsLost | src/engines-experimental/stree/persistent_b_tree.h:1746-1753 | four puts and four erases on a tree of capacity 3 leave an empty tree and such a node |
| StreeWalk.WalkIsChain | src/engines-experimental/stree/persistent_b_tree.h:957-967 | the in-order walk is leaf, separator, leaf, ... along the chain, and every separator points to the front entry of the leaf after it: a bijection with all leaves but the first |
| StreeWalk.SeparatorsDiffer | src/engines-experimental/stree/persistent_b_tree.h:1626-1630 | separators of two different places never point to the same leaf, so an erased key matches at most one inner node |
| StreeQueries.Begin | src/engines-experimental/stree/persistent_b_tree.h:1762-1765 | stands before the first entry of the tree |
| StreeQueries.End | src/engines-experimental/stree/persistent_b_tree.h:1769-1773 | stands behind the last entry |
| StreeQueries.Next | src/engines-experimental/stree/persistent_b_tree.h:1326-1337 | operator++ goes from entry x to entry x + 1 across leaves, and from the last to the end |
| StreeQueries.OnePlace | src/engines-experimental/stree/persistent_b_tree.h:1371-1374 | two iterators are equal if and only if they stand at the same entry |
| StreeQueries.UpperBound | src/engines-experimental/stree/persistent_b_tree.h:1563-1578 | the place of the least entry above the key in the whole tree |
| StreeQueries.LowerBound | src/engines-experimental/stree/persistent_b_tree.h:1512-1523 | the place of the least entry not below the key if the routed leaf reaches the key, and the end if not |
| StreeQueries.Visit | src/iterator.h:62-71 | iterate_through_pairs hands out the entries between two iterators in order, each once, up to the one at which the callback stops |
| StreeQueries.CountAll | src/engines-experimental/stree.cc:39-47 | the number of keys |
| StreeQueries.CountAbove | src/engines-experimental/stree.cc:59-70 | the number of keys above the key |
| StreeQueries.CountEqualBelow | src/engines-experimental/stree.cc:101-112 | the number of keys up to the key |
| StreeQueries.CountsAddUp | src/engines-experimental/stree.cc:59-112 | count_above and count_equal_below add up to the size |
| StreeQueries.GetAbove | src/engines-experimental/stree.cc:144-153 | visits exactly the pairs above the key, in order |
| StreeQueries.GetEqualBelow | src/engines-experimental/stree.cc:168-177 | visits exactly the pairs up to the key, in order |
| StreeQueries.GetAll | src/engines-experimental/stree.cc:132-141 | visits exactly the pairs of the map, in order |
| StreeQueries.CountBelow | src/engines-experimental/stree.cc:87-98 | the number of keys below the key where the routed leaf reaches it, and of all keys elsewhere |
| StreeQueries.CountEqualAbove | src/engines-experimental/stree.cc:73-84 | the number of keys from the key on where the routed leaf reaches it, and 0 elsewhere |
| StreeQueries.CountBetween | src/engines-experimental/stree.cc:114-129 | the number of keys strictly between where the routed leaf reaches the second, and of all above the first elsewhere |
| StreeQueries.GetBelow | src/engines-experimental/stree.cc:180-190 | visits the pairs below the key where the routed leaf reaches it, and all pairs elsewhere |
| StreeQueries.GetEqualAbove | src/engines-experimental/stree.cc:156-165 | visits the pairs from the key on where the routed leaf reaches it, and nothing elsewhere |
| StreeQueries.GetBetween | src/engines-experimental/stree.cc:192-207 | visits the pairs strictly between where the routed leaf reaches the second key, and all above the first elsewhere |
| StreeQueries.CountBelowRight | src/engines-experimental/stree.cc:87-98 | count_below is right if and only if the routed leaf has an entry not below the key or is the last leaf |
| StreeQueries.OneBoundRight | src/engines-experimental/stree.cc:73-190 | so are count_equal_above, get_below and get_equal_above |
| StreeQueries.TwoBoundsRight | src/engines-experimental/stree.cc:114-207 | and count_between and get_between, with the leaf of the upper bound, unless the bounds leave no key between them |
| StreeQueries.MissedKey | src/engines-experimental/stree/persistent_b_tree.h:1519-1520 | every tree with two leaves has keys for which they are wrong |
| StreeQueries.CountBelowGoesWrong | src/engines-experimental/stree.cc:87-98 | four puts into an empty tree of capacity 3 lead to such a tree |
| Tree3Shape.Descend | src/engines-experimental/tree3.cc:215-229 | with `<=` going left, the child picked covers the leaf between whose separators the key lies |
| Tree3Shape.OpenOk | src/engines-experimental/tree3.cc:297-300 | when a leaf is split at a key between its separators, every inner node is right but for the one child that is now two nodes |
| Tree3Shape.PlaceIs | src/engines-experimental/tree3.cc:360-362 | the search for the place of the split key in the parent stops at the split child |
| Tree3Shape.CloseOk | src/engines-experimental/tree3.cc:359-371 | once the parent has taken key and node at that place the tree is in order, but that the parent may have five keys |
| Tree3Shape.HalveOk | src/engines-experimental/tree3.cc:379-398 | a node with five keys becomes two with two keys each, parent pointers of the moved children included; the middle key is the separator between them |
| Tree3Shape.RaiseOk | src/engines-experimental/tree3.cc:338-355 | a split top gets a new top with one key, and the tree is in order |
| Tree3Shape.Balanced | src/engines-experimental/tree3.h:149-163 | every child is one level below its parent and every node but the top has two to four keys; parent pointers are right |
| Tree3Shape.ManyLeaves | src/engines-experimental/tree3.cc:334-404 | h levels of inner nodes stand over at least 2 * 3^(h-1) leaves |
| Tree3Queries.EngineBalanced | src/engines-experimental/tree3.cc:334-404 | so it is in every state of the engine, after any puts, removes and recoveries |
| Tree3Inner.KVInnerNode.Insert | src/engines-experimental/tree3.cc:360-369 | the two shifting loops on the arrays equal the insertion on values |
| Tree3Inner.KVInnerNode.MoveUpper | src/engines-experimental/tree3.cc:380-396 | the two moving loops equal the split on values, and the key returned is the middle one |
| Tree3Pool.SetPair | src/engines-experimental/tree3.cc:274-280 | writing a pair over its key, or into an empty slot when no leaf has the key, is a map update, and no key is stored twice |
| Tree3Pool.ClearPair | src/engines-experimental/tree3.cc:194-196 | clearing a slot removes exactly its key |
| Tree3Pool.MovePairs | src/engines-experimental/tree3.cc:317-325 | moving slots to a leaf where they are empty keeps the map |
| Tree3State.KeyHere | src/engines-experimental/tree3.cc:135-163 | the map has a key if and only if the leaf to which the key is routed has a slot for it |
| Tree3State.FillOk | src/engines-experimental/tree3.cc:274-280 | LeafFillSpecificSlot keeps the invariant of the whole state, mirrors included, and is a map update |
| Tree3State.ClearOk | src/engines-experimental/tree3.cc:189-196 | the writes of remove keep the invariant and remove exactly the key |
| Tree3State.SplitOk | src/engines-experimental/tree3.cc:302-325 | moving everything above the split key to a new leaf keeps the map and every leaf's key range, with the gap in the tree still open |
| Tree3Sort.Sort | src/engines-experimental/tree3.cc:290-293 | the sorted list has the same keys |
| Tree3Sort.Midpoint | src/engines-experimental/tree3.cc:286-294 | 24 of the 49 keys are above the one at the midpoint |
| Tree3.SplitKeyOk | src/engines-experimental/tree3.cc:286-294 | the key at the midpoint lies between the separators around the leaf, 24 of the 49 keys are above it, and some key goes to the half that does not get the new one |
| Tree3.RoomAfter | src/engines-experimental/tree3.cc:326-327 | so the half to which the new key belongs has an empty slot |
| Tree3.Engine.LeafSearch | src/engines-experimental/tree3.cc:208-232 | null if and only if the tree is empty, and otherwise the leaf to which the key belongs |
| Tree3.Engine.FindKey | src/engines-experimental/tree3.cc:89-96 | the scan by hash and then key finds the slot of the key, or that there is none |
| Tree3.Engine.Exists | src/engines-experimental/tree3.cc:82-100 | whether the map has the key |
| Tree3.Engine.Get | src/engines-experimental/tree3.cc:102-127 | what the map holds for the key |
| Tree3.Engine.SlotForKey | src/engines-experimental/tree3.cc:248-264 | the slot of the key, or else the lowest empty one, or that the leaf is full without the key |
| Tree3.Engine.LeafFillSlotForKey | src/engines-experimental/tree3.cc:245-272 | a map update, or nothing if and only if the leaf is full and lacks the key |
| Tree3.Engine.LeafSplitFull | src/engines-experimental/tree3.cc:283-332 | splits a full leaf and adds the pair: a map update that keeps the whole invariant, with one transaction |
| Tree3.Engine.MoveUpper | src/engines-experimental/tree3.cc:317-325 | the loop over the 48 slots moves exactly those above the split key, in pool and mirrors |
| Tree3.Engine.InnerUpdateAfterSplit | src/engines-experimental/tree3.cc:334-404 | closes the gap that a split leaves, up to the top if need be, without changing which leaves stand where; it terminates because the part of the leaves concerned grows |
| Tree3.Engine.Put | src/engines-experimental/tree3.cc:129-171 | a map update with exactly one transaction, which keeps the invariant; one more leaf comes into use at most, for a new key only, and a new one is allocated only if no spare leaf is left |
| Tree3.Engine.PutFirst | src/engines-experimental/tree3.cc:138-162 | the same into an empty tree, from a spare or a new leaf |
| Tree3.Engine.Remove | src/engines-experimental/tree3.cc:173-200 | removes exactly the key, and says whether it was there |
| Tree3Recover.InvPersists | src/engines-experimental/tree3.cc:296-327 | in every state the key ranges of the persistent leaves are pairwise separated, hashes are right and no key is stored twice |
| Tree3Recover.MaxOrder | src/engines-experimental/tree3.cc:453-457 | leaves with separated ranges are ordered by their highest keys, and the order is strict |
| Tree3Recover.RecoveredOk | src/engines-experimental/tree3.cc:410-484 | a tree over leaves in the order of their highest keys, with those as separators, routes every stored key to its leaf |
| Tree3.Engine.ReadLeaf | src/engines-experimental/tree3.cc:425-443 | one leaf is read into hashes, keys, highest key, and whether it is empty |
| Tree3.Engine.Recover | src/engines-experimental/tree3.cc:410-484 | from the list alone, in whatever order, a state with the full invariant is built |
| Tree3Queries.CountAll | src/engines-experimental/tree3.cc:40-59 | the number of keys |
| Tree3Queries.GetAll | src/engines-experimental/tree3.cc:61-80 | visits every pair of the map once, unless the callback stops |
| Tree3Queries.RowsAreMap | src/engines-experimental/tree3.cc:61-80 | the walk over list and slots meets every pair of the map exactly once |
| Tree3Queries.Reopen | src/engines-experimental/tree3.cc:410-484 | an engine opened again on the leaves another one left has the same map |
| OrderedCache.CachePutOk | src/engines-experimental/radix.h:95-138 | put fails exactly on a full cache without a victim; otherwise it takes the key's own node, a new one while there is room, or the victim, list and map stay in bijection within the size, the node is at the front with the new value, all others as before |
| OrderedCache.CachePutOrder | src/engines-experimental/radix.h:95-138 | no two untouched nodes change their relative order |
| OrderedCache.CachePromoteOrder | src/engines-experimental/radix.h:140-153 | get with promotion puts the key's node in front, keeps every node's key and value and the relative order of all others, and changes nothing for an absent key |
| OrderedCache.CachePromoteOk | src/engines-experimental/radix.h:140-153 | and keeps the bijection of list and map |
| OrderedCache.LruCache.Put | src/engines-experimental/radix.h:95-138 | the overwriting of list and map in place equals the function on values; a failed eviction changes nothing |
| OrderedCache.LruCache.Get | src/engines-experimental/radix.h:140-153 | the same for get |
| HeteroRadixScan.EvictCallback | src/engines-experimental/radix.cc:536-547 | the scan from the tail, with the background thread at work after every load, finds the least recently used node whose cell was neither in the log nor a volatile tombstone when it was looked at; that node may still go when the scan is over. On a list at rest it is the least recently used node that may go |
| HeteroRadixScan.PickStays | src/engines-experimental/radix.cc:536-547 | a node that may go may go later too, whatever the background thread does |
| HeteroRadixSafety.KeepRun | src/engines-experimental/radix.cc:560-684 | the invariant that ties cells, log, tree and completed operations holds after every run of user and background steps, restarts included, whose evictions are harmless: no queued erase names the node, or the tree does not hold the key it is taken for |
| HeteroRadixEvict.HarmlessExactly | src/engines-experimental/radix.cc:536-547 | an eviction is harmless if and only if from then on, as long as later evictions are harmless, every answer is right and every crash between operations recovers the completed ones |
| HeteroRadixSafety.KeepStepIff | src/engines-experimental/radix.cc:536-547 | a step keeps the invariant if and only if its eviction, if it makes one, is harmless |
| HeteroRadixSafety.GoesStale | src/engines-experimental/radix.cc:1059-1078 | when a node goes to a key that the tree does not hold, every queued erase that names it is ahead of all entries that could bring its own key or the new one into the tree |
| HeteroRadixSafety.HarmfulVictim | src/engines-experimental/radix.cc:536-547 | only the eviction of a persistent tombstone, whose key is neither in the tree nor in the map, can do harm |
| HeteroRadixEvict.HarmfulEvictionLosesErase | src/engines-experimental/radix.cc:536-547 | after every eviction that is not harmless, some run with harmless evictions only removes the new key, empties the log, and a crash finds the key again |
| HeteroRadixEvict.DoomedDrain | src/engines-experimental/radix.cc:1059-1078 | once a queued erase is ahead of the entry for another key's tombstone in the same node, the background thread deals with the whole log and the key stays in the tree |
| HeteroRadixSafety.OverlayIsSpec | src/engines-experimental/radix.cc:741-784 | cache over tree is the map of completed operations at every step of both threads, for every key but the one that a put or remove is changing |
| HeteroRadixSafety.DrainedTreeIsSpec | src/engines-experimental/radix.cc:1044-1079 | once the log is empty between operations the tree alone is the map |
| HeteroRadixSafety.DrainedKey | src/engines-experimental/radix.cc:1044-1079 | and during a put or remove it is right about every other key |
| HeteroRadixCalls.PutLaw | src/engines-experimental/radix.cc:560-626 | a whole call put(k, v), whatever the background thread does before, during and after it, maps k to v and changes nothing else |
| HeteroRadixCalls.GetLaw | src/engines-experimental/radix.cc:741-784 | a whole call get(k) answers exactly once, with what the map has for k, None included, and changes nothing |
| HeteroRadixCalls.RemoveLaw | src/engines-experimental/radix.cc:628-684 | a whole call remove(k) answers whether k was there, and k is gone |
| HeteroRadixCalls.OrderLaw | src/engines-experimental/radix.cc:536-684 | a put, a get of a key that ends up cached and a remove that finds its key put the key's node in front and leave the others in their order; the other calls leave the list as it was |
| HeteroRadixCalls.SessionIsMap | src/engines-experimental/radix.cc:494-784 | over any number of calls, with crashes and restarts between them, the engine gives the answers of a map and holds what the map holds |
| HeteroRadixCalls.OpenedIsMap | src/engines-experimental/radix.cc:459-784 | so does an engine just opened over any tree |
| HeteroRadixCalls.CrashInCall | src/engines-experimental/radix.cc:494-623 | a crash in the middle of a call leaves the call's effect if its entry was written, and in any case every other key as before |
| HeteroRadixCalls.FewSteps | src/engines-experimental/radix.cc:560-784 | whatever the background thread does, a get reads a value twice at most: a put takes at most three steps of its own, a remove four, a get six |
| HeteroRadixCalls.CallCompletes | src/engines-experimental/radix.cc:560-784 | from every state between calls, every call can be completed |
| HeteroRadixCalls.NeverWaits | src/engines-experimental/radix.cc:560-784 | a get, a remove that finds nothing, and every call for whose key the cache has a node without evicting one, is completed by the user alone |
| HeteroRadixCalls.PutWaits | src/engines-experimental/radix.cc:588-594 | put waits for the background thread exactly as long as the cache has neither the key, nor room, nor a node that may go |
| HeteroRadixSafety.AnswersAreRight | src/engines-experimental/radix.cc:741-784 | every get and every remove answers from the map of completed operations, also when it copies a value the background thread is working on, and never through a stale tree pointer |
| HeteroRadixCrash.RestartKeepsKey | src/engines-experimental/radix.cc:494-497 | a crash at any step recovers every key that has no operation under way |
| HeteroRadixCrash.RestartKeepsMap | src/engines-experimental/radix.cc:494-497 | a crash between operations recovers exactly the completed ones, however much of the log had been applied |
| HeteroRadixCrash.RestartTakesWrittenEntry | src/engines-experimental/radix.cc:602-623 | if the entry under production reached the log, its operation is recovered too |
| HeteroRadixCrash.ReplayAgain | src/engines-experimental/radix.cc:494-497 | a crash during the replay and another replay change nothing |
| HeteroRadixCrash.Restart | src/engines-experimental/radix.cc:494-497 | the loop over the unreleased entries equals the replay |
| HeteroRadixCrash.PutIsDurableIffSettled | src/engines-experimental/radix.cc:596-623 | after put or remove has nulled the cell and before its entry is written, a crash recovers all completed operations, whatever the background thread does meanwhile, if and only if the key was settled when the call began |
| HeteroRadixCrash.ConsumedIsSettled | src/engines-experimental/radix.cc:1064-1079 | a key whose last entry was consumed, or that is not cached, is settled |
| HeteroRadixExamples.CrashCanLosePut | src/engines-experimental/radix.cc:596-623 | a reachable state in which a crash loses a completed put |
| HeteroRadixExamples.EvictionCanReviveKey | src/engines-experimental/radix.cc:536-547 | a reachable state in which a get finds a removed key, after an eviction that was not harmless |
| MergedIterator.BgRunFollows | src/engines-experimental/radix.cc:1044-1079 | while an iterator stands still, the background thread changes neither the cached keys nor the map, and cells only from the log to the tree and from the volatile to the persistent tombstone |
| MergedIterator.Iterator.SetCurrent | src/engines-experimental/radix.cc:420-449 | skips tombstones and shadowed tree entries and leaves what remains to be visited unchanged, with the background thread at work between the loads |
| MergedIterator.Iterator.Value | src/engines-experimental/radix.cc:386-412 | the value the map has for the current key, also when the entry is released or its memory reused while the value is copied |
| MergedIterator.Iterator.Next | src/engines-experimental/radix.cc:352-374 | exactly the current key leaves what remains |
| MergedIterator.Iterator.KeyIsLeast | src/engines-experimental/radix.cc:377-385 | the current key is the least of what remains |
| MergedIterator.GetRange | src/engines-experimental/radix.cc:834-977 | the loop that the get_* operations share visits the pairs of the map between two bounds in increasing order, each once, up to the one at which the callback stops, whatever the background thread does meanwhile |
| MergedIterator.GetAll | src/engines-experimental/radix.cc:834-850 | get_all visits every pair |
| MergedIterator.GetAbove | src/engines-experimental/radix.cc:853-870 | get_above visits the pairs with keys above the key |
| MergedIterator.GetEqualAbove | src/engines-experimental/radix.cc:873-890 | get_equal_above visits the pairs from the key on |
| MergedIterator.GetEqualBelow | src/engines-experimental/radix.cc:893-927 | get_equal_below visits the pairs up to the key |
| MergedIterator.GetBelow | src/engines-experimental/radix.cc:930-949 | get_below visits the pairs with keys below the key |
| MergedIterator.CountAll | src/engines-experimental/radix.cc:989-995 | the number of keys |
| MergedIterator.CountAbove | src/engines-experimental/radix.cc:997-1003 | the number of keys above the key |
| MergedIterator.CountEqualAbove | src/engines-experimental/radix.cc:1005-1011 | the number of keys from the key on |
| MergedIterator.CountEqualBelow | src/engines-experimental/radix.cc:1013-1019 | the number of keys up to the key |
| MergedIterator.CountBelow | src/engines-experimental/radix.cc:1021-1027 | the number of keys below the key |
| MergedIterator.CountBetween | src/engines-experimental/radix.cc:1029-1036 | the number of keys strictly between the two |
| MergedIterator.GetBetween | src/engines-experimental/radix.cc:952-977 | get_between visits the pairs strictly between the two keys, and nothing unless the first is below the second |
| RobinHoodRing.IncrementPosIs | src/engines-experimental/robinhood.cc:54-58 | the masked increment is the next slot of the ring 1 .. capacity - 1 |
| RobinHoodRing.ProbeDistanceIs | src/engines-experimental/robinhood.cc:64-70 | the wrapped, masked difference ignores the tombstone bit and is the ring distance that counts slot 0 at the wrap |
| RobinHoodRing.HashInRange | src/engines-experimental/robinhood.cc:77-94 | a hash is a slot of the ring and marks neither an unused nor a deleted entry |
| RobinHoodRing.HashIs | src/engines-experimental/robinhood.cc:77-94 | the mask takes the remainder of the mixed key by the capacity, with slot 1 for 0 |
| RobinHoodTable.InsertOk | src/engines-experimental/robinhood.cc:186-260 | an insert that is done within one lap keeps the probe invariant and uniqueness through any chain of displacements and tombstone reuse, is exactly a map update on success, and does the same in both modes |
| RobinHoodTable.OneLapWhen | src/engines-experimental/robinhood.cc:204-254 | one lap is enough for every key on a table with a slot never used, and on every table of more than 150 slots |
| RobinHoodTable.WalkOk | src/engines-experimental/robinhood.cc:204-254 | the loop within one lap, from any round on |
| RobinHoodTable.GivesUp | src/engines-experimental/robinhood.cc:255-259 | a deferred walk that gives up has written nothing |
| RobinHoodTable.DeleteOk | src/engines-experimental/robinhood.cc:416-431 | a removal keeps the probe invariant, as the tombstone keeps its distance, removes exactly the key, and uses up no slot |
| RobinHoodTable.LookupStopsExactly | src/engines-experimental/robinhood.cc:266-286 | the loop of index_lookup, from the key's home with the counter at 0, ends if and only if the key is in the table or some slot stops it |
| RobinHoodTable.ForeachMap | src/engines-experimental/robinhood.cc:471-494 | the slots that hold entries, in order, hold each pair of the map exactly once |
| RobinHoodExact.InsertExactly | src/engines-experimental/robinhood.cc:186-260 | on any well-formed table, with or without a slot never used, an insert that reports success is a map update if and only if it queues no second write for a slot |
| RobinHoodExact.OneLapWritesOnce | src/engines-experimental/robinhood.cc:204-254 | within one lap no slot is written twice |
| RobinHoodExact.OrderExactly | src/engines-experimental/robinhood.cc:186-260 | an insert that succeeds and writes no slot twice leaves a well-formed table if and only if none of its queued writes comes to stand in the way of an entry, one that is further from its home at that slot than the new occupant is from its own |
| RobinHoodExact.WritesWays | src/engines-experimental/robinhood.cc:204-254 | every pair in the queue could pass all slots from its home to its new place, also after several laps |
| RobinHoodExact.ReplacedIsLost | src/engines-experimental/robinhood.cc:232-246 | what the first replaced write put down is nowhere in the table afterwards |
| RobinHoodRuns.RunKeeps | src/engines-experimental/robinhood.cc:391-443 | a run of inserts and removes without rebuild that adds fewer keys than there are slots never used keeps the table well-formed, does to the map what its operations mean, and ends every lookup |
| RobinHoodRuns.RebuiltRoom | src/engines-experimental/robinhood.cc:313-372 | a table just rebuilt to capacity c with n entries has c - 1 - n such slots |
| RobinHoodCopy.FewFit | src/engines-experimental/robinhood.cc:291-307 | copying fewer than 150 entries into a new table of any capacity with slots enough does not fail |
| RobinHoodCopy.NearSucceeds | src/engines-experimental/robinhood.cc:204-260 | on any well-formed table, however large and however full of tombstones, an insert succeeds if one of the first 150 slots from the key's home was never used or holds the key |
| RobinHoodCopy.FewNear | src/engines-experimental/robinhood.cc:204-260 | without tombstones and with fewer than 150 entries there always is such a slot |
| RobinHoodCopy.InsertSucceeds | src/engines-experimental/robinhood.cc:204-260 | on at most 150 slots, one of which was never used, an insert succeeds |
| RobinHood.Hashmap.InsertHelper | src/engines-experimental/robinhood.cc:186-260 | the loop with its queue of writes, or with writes made at once, equals the walk on values; `count` follows |
| RobinHood.Hashmap.IndexLookup | src/engines-experimental/robinhood.cc:266-286 | the slot of a present key, and 0 if and only if the key is absent, through tombstones and across the wrap; two laps decide whether the loop ends, and it does if and only if the key is there or some slot stops it |
| RobinHood.Hashmap.EntriesCache | src/engines-experimental/robinhood.cc:291-307 | copies the map into the new table, with the same count, if and only if every entry finds a place |
| RobinHood.Hashmap.Rebuild | src/engines-experimental/robinhood.cc:313-372 | succeeds if and only if there is memory and the entries fit; success keeps map and count and leaves a slot never used and no tombstone; failure changes nothing |
| RobinHood.Hashmap.PutEntry | src/engines-experimental/robinhood.cc:391-401 | hm_rp_insert: it succeeds if and only if the rebuild that is due succeeds and insert_helper finds a place in the table of that moment; a map update on success and no change of the map on failure if the call rebuilds or is done within one lap; otherwise success is a map update if and only if no slot is written twice, and then the state is valid if and only if no write comes to stand in the way of an entry |
| RobinHood.Hashmap.RemoveEntry | src/engines-experimental/robinhood.cc:409-443 | the key is gone and `count` exact and below half the capacity, which is halved exactly when a quarter of it is at least 16 and more than the entries that remain and the smaller table can be had; 1 if and only if the key was absent or the smaller table was called for and could not be had |
| RobinHood.Hashmap.GetEntry | src/engines-experimental/robinhood.cc:448-457 | what the map holds for the key, if and only if the lookup ends |
| RobinHood.Hashmap.Foreach | src/engines-experimental/robinhood.cc:471-494 | hands out the entries slot by slot: it stops if and only if the callback says so, at the first entry for which it does, and otherwise visits all |
| RobinHoodExamples.OneRound | src/engines-experimental/robinhood.cc:391-443 | inserting and removing a key on a table of tombstones leaves one more tombstone |
| RobinHoodExamples.InsertCanDropKey | src/engines-experimental/robinhood.cc:186-260 | a reachable table on which an insert reports success and its key is nowhere |
| RobinHoodExamples.InsertCanHideKey | src/engines-experimental/robinhood.cc:186-286 | a reachable table on which an insert reports success and writes no slot twice, the map is right, and a lookup no longer finds another key |
| RobinHoodExamples.LookupCanRunForever | src/engines-experimental/robinhood.cc:266-286 | puts and removes lead from a new table to an empty one on which the lookup of no key ends |
| RobinHoodExamples.RemoveCanReportFailure | src/engines-experimental/robinhood.cc:409-443 | sixteen puts into a new map and one remove without memory: the key was there, is gone, and 1 is returned |
| Keys.RankOrder | src/engines-experimental/radix.cc:425-431 | the byte-wise order of string comparison, by which cache and tree are merged, is the order of ranks |

## Left out

- RobinHoodTable.InsertOk: is about inserts done within one lap. What an insert that comes round does is said by InsertExactly for the map and OrderExactly for the order of probe distances.
- RobinHood.Hashmap.PutEntry: capacities stop at 2^63, where doubling would leave 64 bits.
- stree, update in place: `Stree.BTree` overwrites whole nodes of a memory image; the array classes LeafNode and InnerNode carry the in-place loops, and aliasing of two tree objects over one pool is not modelled.
- stree, operator--, the iterators of the engine interface built on it, and operator[].
- tree3, a removed key's slot is cleared in the volatile copies before the transaction; a crash in between leaves the pool of the last transaction, which is all that recovery reads.
- tree3, moved-from strings in the key arrays of split inner nodes keep their value in the model; they are behind the live keys.
- robinhood, the engine's lock and its 8-byte key and value checks.
- Out of memory, exceptions, garbage collection, epoch-based reclamation, condition variables and shutdown of heterogeneous_radix.
- The hash functions themselves, the environment variable for the load factor, comparators' storage, configuration, JSON, the C and C++ interfaces, the engines cmap, csmap, vcmap, vsmap, blackhole and radix, and the transaction log of radix.
- Pool opening, allocation and byte layouts.

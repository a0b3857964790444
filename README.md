# B+ tree index of the B-Tree visualisation web app, in Dafny

This project models the `BPlusTree` class of `lib/bplus-tree.ts`: an in-memory B+ tree of numeric keys
whose leaves hold one value list per key (the list records every insert of that key) and whose
internal nodes hold routing separators. It covers the constructor, `insert` with leaf and internal
splits, `remove` with borrowing, merging and the cascade up the tree, `search`, `rangeSearch` along
the leaf chain, the helpers `findChildIndex`, `findInsertPosition` and `calculateHeight`, `export` and
`import` of snapshots, `clone`, and the self-check `validate`/`getLeafDepths`/`validateNode`.

Nodes are values (`BPlusNodes.Node`). The class `Tree.BPlusTree` holds the fields the source
updates in place: the root, the order, `nodeCount`, `leafCount`, `dataCount`, `height`, and the leaf
chain that the `next` references form. Its methods reassign those fields. Each public method states
what it does to the stored keys, the value lists and the counters. Each method except `Import` also
keeps the invariant `Valid()`; `Import` checks nothing, and leaves a valid tree exactly when the snapshot
it takes in describes one. `Valid()` means: order at least 3, every leaf at one depth, every non-root node holding a key, the
separator bounds `validateNode` checks, the height `calculateHeight` reports, and the chain equal to
the leaves in order.

The modules follow the source's structure:

- `nodes.dfy`: the node type, `findChildIndex`, `findInsertPosition`, `calculateHeight`, `validateNode` and the leaf chain.
- `regroup.dfy`: the join-and-cut algebra behind every split, borrow and merge.
- `insert.dfy`: `insert`, `insertRecursive`, `splitLeafNode` and `splitInternalNode`.
- `remove.dfy`: `remove`, `removeRecursive` and the two underflow handlers.
- `query.dfy`: `search` and `rangeSearch`.
- `validate.dfy`: `validate`, `getLeafDepths` and `validateNode` as the loops the source runs.
- `snapshot.dfy`: `export`, `import` and `rebuildLeafLinks`.
- `tree.dfy`: the class.

Four behaviours of the code that the model keeps:

- `dataCount` rises on every insert, a duplicate key included (line 53), so it counts inserts rather than distinct keys.
- `import` checks nothing and falls back to defaults through `||` (lines 634-646), so a malformed snapshot is taken in as it is.
- A counter that is 0 comes back from `import(export())` as 1 (lines 636-637), so that round trip is not exact.
- Removing the last key of a root leaf brings `nodeCount` and `leafCount` to 0 (lines 235-239), although the leaf stays.

## Model

| member | source | states |
|---|---|---|
| BPlusNodes.FindChildIndex | lib/bplus-tree.ts:527-540 | the scan returns the number of leading separators not above the key (ChildIndex), so a key equal to a separator goes right |
| BPlusNodes.ChildIndexUnique | lib/bplus-tree.ts:527-540 | the child index is the only index with no greater separator before it and a greater one at it |
| BPlusNodes.FindInsertPosition | lib/bplus-tree.ts:542-559 | the binary search stays within 0..length and, on ascending keys, returns the index of the equal key or else of the first greater key |
| BPlusNodes.InsertPositionUnique | lib/bplus-tree.ts:542-559 | that position is the only index with smaller keys before it and no smaller key at it |
| BPlusNodes.InsertPositionFinds | lib/bplus-tree.ts:60-63 | on ascending keys the key is stored exactly when the position found holds it, the test insertRecursive makes |
| BPlusNodes.BalancedHeight | lib/bplus-tree.ts:566-577 | on a tree with every leaf at depth h, calculateHeight's walk down the first children returns h |
| BPlusNodes.CalcHeight | lib/bplus-tree.ts:566-577 | calculateHeight as written, the walk down the first children; at least 1, and 1 on a leaf; BalancedHeight proves it is the common leaf depth of a balanced tree |
| BPlusNodes.AdjacentAscendingIsAscending | lib/bplus-tree.ts:727-732 | validateNode's neighbour-by-neighbour test holds exactly when all keys are strictly ascending |
| BPlusNodes.ValidKeys | lib/bplus-tree.ts:725-767 | a node passing validateNode between two bounds holds ascending keys in chain order, all within the bounds |
| BPlusNodes.Route | lib/bplus-tree.ts:79-86 | in a valid node, every key left of the routed child is below the key, every key right of it is above, and the child is valid between the separators around it |
| BPlusNodes.MinKeysPositive | lib/bplus-tree.ts:265 | for order at least 3, the underflow bound ceil(order/2) - 1 is at least 1 and two minimal nodes fit below the order |
| BPlusInsert.SplitLeaf | lib/bplus-tree.ts:91-108 | the leaf keeps its first floor(len/2) entries; the two halves hold the leaf's keys and value lists in order, the right half is non-empty and its first key is the promoted separator; one node and one leaf are added |
| BPlusInsert.SplitInternal | lib/bplus-tree.ts:133-146 | the node keeps its first floor(len/2) keys; the left keys, the middle key and the right keys make up the node's keys; the children are divided between the halves; one node is added |
| BPlusInsert.SplitLeafSound | lib/bplus-tree.ts:91-108 | splitting a valid full leaf gives two valid non-empty leaves on either side of the separator, strictly inside the leaf's bounds |
| BPlusInsert.SplitInternalSound | lib/bplus-tree.ts:133-146 | splitting a valid full internal node gives two valid, balanced, non-empty halves and a separator strictly inside its bounds |
| BPlusInsert.SeparatorPosition | lib/bplus-tree.ts:121-124 | a separator promoted from child c lands at findInsertPosition index c of the parent, so the split node keeps its place |
| BPlusInsert.PromoteIsSplice | lib/bplus-tree.ts:121-124 | the parent splice as written (separator at the found index, new node after it) equals putting both halves in place of child c |
| BPlusInsert.PromoteSound | lib/bplus-tree.ts:121-130 | a parent taking in the two halves and the separator stays valid, balanced and populated, one key longer |
| BPlusInsert.InsertRecSound | lib/bplus-tree.ts:57-89 | inserting into a valid, balanced subtree within its bounds gives a valid balanced subtree of the same height, or two such halves around a separator within the bounds |
| BPlusInsert.InsertRecEffect | lib/bplus-tree.ts:57-89 | the subtree (or both halves) then stores the keys with the key inserted in order and the value lists with [key] added or key appended; node and leaf counts rise by the splits reported |
| BPlusInsert.InsertLeafEffect | lib/bplus-tree.ts:58-76 | a leaf appends the key to an existing value list, or splices in the key with the value list [key], and the split keeps those contents |
| BPlusInsert.GrowSound | lib/bplus-tree.ts:110-118 | insert's result, with a new root over a split root, is valid, balanced and populated, and the height rises by one exactly when the root split |
| BPlusInsert.GrowEffect | lib/bplus-tree.ts:51-55 | after insert the tree stores InsertedKeys and InsertedValues of the old contents, and the node and leaf counts rise by the nodes and leaves added |
| BPlusInsert.InsertedKeysSorted | lib/bplus-tree.ts:60-71 | inserting keeps the keys ascending, adds exactly the key, and adds one key exactly when it was absent |
| BPlusInsert.InsertPresent | lib/bplus-tree.ts:62-67 | inserting a stored key splits nothing, adds no node and leaves the stored keys unchanged |
| BPlusInsert.InsertRec | lib/bplus-tree.ts:57-88 | insertRecursive as written: descend to the child findChildIndex routes to, and the node absorbs what comes back; the result is shaped and of the node's kind; InsertRecEffect and InsertRecSound prove what it computes |
| BPlusInsert.InsertLeaf | lib/bplus-tree.ts:58-76 | insertRecursive at a leaf: append to the value list of a stored key, or splice in the key with [key] and split at `order` keys; the result is a shaped leaf or two; InsertLeafEffect proves what it stores |
| BPlusInsert.Absorb | lib/bplus-tree.ts:119-130 | the parent side of a child's insert: a rewritten child in place, or the halves promoted into the parent, which splits at `order` keys (lines 157-172 for internal splits); the result is shaped and internal; InsertRecEffect and InsertRecSound prove what it computes |
| BPlusInsert.Promote | lib/bplus-tree.ts:121-124 | the parent splice of a split: one key longer, shaped and internal; PromoteIsSplice and PromoteSound prove it puts both halves in place of the split child and stays valid |
| BPlusInsert.Grow | lib/bplus-tree.ts:110-118 | insert's root step: an unsplit result is the root, and a split one gets a new root holding only the separator, one level higher than the halves; GrowSound and GrowEffect prove what it stores |
| BPlusInsert.GrowNodes | lib/bplus-tree.ts:110-114 | the nodes insert adds to nodeCount: those the splits made, plus one exactly when the root split and a new root was made (lines 148-152 for an internal root) |
| BPlusRegroup.JoinContents | lib/bplus-tree.ts:304-305 | joining two siblings keeps their keys and value lists in order and frees one node (and one leaf for leaves) |
| BPlusRegroup.SplitContents | lib/bplus-tree.ts:100-101 | cutting a node keeps its keys and value lists in order across the halves and adds one node (and one leaf for a leaf) |
| BPlusRegroup.SplitLeafContents | lib/bplus-tree.ts:95-101 | a leaf cut keeps keys and value lists and adds one node and one leaf |
| BPlusRegroup.SplitInternalContents | lib/bplus-tree.ts:138-146 | an internal cut keeps the keys below and adds one node and no leaf |
| BPlusRegroup.JoinValid | lib/bplus-tree.ts:399-402 | two valid siblings joined around their separator form a node valid between the outer bounds |
| BPlusRegroup.SplitValid | lib/bplus-tree.ts:142-146 | the two parts of a valid node cut at key j are valid below and above key j |
| BPlusRegroup.WithChildContents | lib/bplus-tree.ts:251 | replacing child c changes the stored keys, value lists and counts by exactly what child c changed |
| BPlusRegroup.ReplacePairValid | lib/bplus-tree.ts:273-277 | a parent whose two siblings and separator are replaced by a valid regrouping stays valid |
| BPlusRegroup.MergePairValid | lib/bplus-tree.ts:311-312 | a parent dropping a separator and putting the merged node in place of two siblings stays valid |
| BPlusRemove.HandleLeafUnderflow | lib/bplus-tree.ts:264-332 | borrowing keeps the parent's key count, merging takes one away, and the side borrowed from or merged with exists |
| BPlusRemove.HandleInternalUnderflow | lib/bplus-tree.ts:355-425 | the same for internal siblings, rotating through the parent separator |
| BPlusRemove.LeafBorrowLeftRegroups | lib/bplus-tree.ts:268-280 | taking the left sibling's last entry is the two leaves joined and cut one entry further left |
| BPlusRemove.LeafBorrowRightRegroups | lib/bplus-tree.ts:284-296 | taking the right sibling's first entry is the two leaves joined and cut one entry further right |
| BPlusRemove.LeafMergeLeftRegroups | lib/bplus-tree.ts:300-315 | merging into the left sibling is the join of the two leaves, with the separator dropped |
| BPlusRemove.LeafMergeRightRegroups | lib/bplus-tree.ts:317-331 | absorbing the right sibling is the join of the two leaves, with the separator dropped |
| BPlusRemove.InternalBorrowLeftRegroups | lib/bplus-tree.ts:359-373 | rotating through the separator from the left is the two nodes joined around it and cut one key further left |
| BPlusRemove.InternalBorrowRightRegroups | lib/bplus-tree.ts:377-391 | rotating from the right is the join cut one key further right |
| BPlusRemove.InternalMergeLeftRegroups | lib/bplus-tree.ts:395-409 | merging into the left sibling pulls the separator down between the two key runs |
| BPlusRemove.InternalMergeRightRegroups | lib/bplus-tree.ts:410-425 | absorbing the right sibling pulls the separator down between the two key runs |
| BPlusRemove.LeafBorrowLeft | lib/bplus-tree.ts:268-281 | borrow from the left leaf sibling: the parent stays shaped with leaf children and as many keys; LeafBorrowLeftRegroups and HandleContents prove what it stores |
| BPlusRemove.LeafBorrowRight | lib/bplus-tree.ts:284-297 | borrow from the right leaf sibling: the parent stays shaped with leaf children and as many keys; LeafBorrowRightRegroups and HandleContents prove what it stores |
| BPlusRemove.LeafMergeLeft | lib/bplus-tree.ts:300-315 | merge into the left leaf sibling: the parent stays shaped with leaf children and one key fewer; LeafMergeLeftRegroups and HandleContents prove what it stores |
| BPlusRemove.LeafMergeRight | lib/bplus-tree.ts:316-332 | absorb the right leaf sibling: the parent stays shaped with leaf children and one key fewer; LeafMergeRightRegroups and HandleContents prove what it stores |
| BPlusRemove.InternalBorrowLeft | lib/bplus-tree.ts:359-374 | rotate from the left internal sibling: the parent stays shaped with internal children and as many keys; InternalBorrowLeftRegroups and HandleContents prove what it stores |
| BPlusRemove.InternalBorrowRight | lib/bplus-tree.ts:377-392 | rotate from the right internal sibling: the parent stays shaped with internal children and as many keys; InternalBorrowRightRegroups and HandleContents prove what it stores |
| BPlusRemove.InternalMergeLeft | lib/bplus-tree.ts:395-409 | merge into the left internal sibling: the parent stays shaped with internal children and one key fewer; InternalMergeLeftRegroups and HandleContents prove what it stores |
| BPlusRemove.InternalMergeRight | lib/bplus-tree.ts:410-425 | absorb the right internal sibling: the parent stays shaped with internal children and one key fewer; InternalMergeRightRegroups and HandleContents prove what it stores |
| BPlusRemove.HandleSound | lib/bplus-tree.ts:264-443 | handling an underflowing child leaves the parent valid, balanced and with every child holding a key |
| BPlusRemove.HandleContents | lib/bplus-tree.ts:264-443 | handling keeps the parent's keys and value lists; a merge frees one node, and one leaf when leaves merged |
| BPlusRemove.KindsAgree | lib/bplus-tree.ts:264-443 | two subtrees of one height are both leaves or both internal, so siblings are of one kind |
| BPlusRemove.ResyncValid | lib/bplus-tree.ts:254-258 | resetting separator i - 1 to the first key of leaf child i keeps a valid node valid |
| BPlusRemove.Resync | lib/bplus-tree.ts:254-258 | the separator update, guarded: the children and the number of keys stay; ResyncValid proves a valid node stays valid |
| BPlusRemove.ResyncThrows | lib/bplus-tree.ts:254 | where the update as written reads a child the node no longer has; there the guarded update changes nothing |
| BPlusRemove.RemoveRec | lib/bplus-tree.ts:219-262 | removeRecursive as written, with the guarded update; the result is shaped, of the node's kind, a leaf one key shorter, an internal node one key shorter exactly when a child merged; RemoveRecEffect and RemoveRecSound prove what it computes |
| BPlusRemove.RemoveFromLeaf | lib/bplus-tree.ts:220-231 | removeRecursive at a leaf: the leaf is one key shorter when the key is found; RemoveRecEffect proves exactly that key and its value list go |
| BPlusRemove.Repair | lib/bplus-tree.ts:233-258 | the parent side of a child's removal: handle an underflowing child (with the cascades at 334-352 and 427-443), then the separator update; the result is shaped; RepairEffect and RepairSound prove what it computes |
| BPlusRemove.RemoveFromRoot | lib/bplus-tree.ts:200-217 | remove as written, with the guarded update: height at least 1; a leaf root stays a leaf of height 1, and the emptied root leaf is counted in nodeCount and leafCount alike; RemoveFromRootEffect and RemoveFromRootSound prove what it computes |
| BPlusRemove.Finish | lib/bplus-tree.ts:206-214 | the height is recorded before the collapse: a kept root gets its own height, and a collapsed root (an internal node with one child) is replaced by that child with a height one more than the child's and one more node freed; FinishKeeps proves what it keeps |
| BPlusRemove.RemoveRecSound | lib/bplus-tree.ts:219-262 | removing from a healthy valid subtree leaves it balanced at its height, with populated children, valid between the same bounds |
| BPlusRemove.RemoveRecEffect | lib/bplus-tree.ts:219-262 | the key is found exactly when stored; the subtree then holds RemovedKeys and RemovedValues, and its counts fall by the nodes and leaves reported freed |
| BPlusRemove.RepairEffect | lib/bplus-tree.ts:233-258 | an internal node taking back a child's removal stores what the child stores, with its other children unchanged |
| BPlusRemove.RemoveFromRootSound | lib/bplus-tree.ts:200-215 | remove leaves a healthy valid tree whose recorded height is calculateHeight of the new root, at most one lower than before |
| BPlusRemove.RemoveFromRootEffect | lib/bplus-tree.ts:200-239 | remove finds the key exactly when stored, removes it with its value list, and the counts fall by what was freed plus the emptied root leaf that stays |
| BPlusRemove.FinishKeeps | lib/bplus-tree.ts:208-214 | the collapse of a one-child root without separators keeps keys, value lists and counts net of the node it frees, and never touches a leaf root |
| BPlusRemove.RemovedKeysSorted | lib/bplus-tree.ts:222-230 | removing keeps the keys ascending, drops exactly the key, and shortens them by one exactly when it was stored |
| BPlusRemove.RemoveInsertRoundTrip | lib/bplus-tree.ts:51-71 | insert after remove of a stored key, and remove after insert of an absent key, give the keys back; remove after insert of an absent key also gives the value lists back |
| BPlusRemove.RemoveAsWritten | lib/bplus-tree.ts:254 | the outcome remove reports as written: found or not, or the TypeError thrown by the separator update |
| BPlusRemove.RemoveThrowsAfterMergeLeft | lib/bplus-tree.ts:254 | with order 4, root [15] over leaves [5] and [15], remove(15) throws as written, while the guarded model removes it and leaves the leaf [5] |
| BPlusQuery.Search | lib/bplus-tree.ts:447-475 | the descent and leaf scan return the value list stored under the key (Lookup of the tree's keys and values) |
| BPlusQuery.ScanLeaf | lib/bplus-tree.ts:467-474 | the scan of the reached leaf returns the key's value list, or [] when the leaf lacks the key |
| BPlusQuery.SearchStep | lib/bplus-tree.ts:454-465 | following findChildIndex keeps the lookup of the key unchanged, since the key can only be stored in the routed child |
| BPlusQuery.LookupAt | lib/bplus-tree.ts:468-474 | on ascending keys, Lookup gives the value list at the key's index, or [] when it is absent |
| BPlusQuery.LookupInserted | lib/bplus-tree.ts:57-76 | after insert, search of the key returns its old value list with the key appended, and search of every other key is unchanged |
| BPlusQuery.LookupRemoved | lib/bplus-tree.ts:219-230 | after remove, search of the key returns [] and search of every other key is unchanged |
| BPlusQuery.DescendToLeaf | lib/bplus-tree.ts:484-496 | the descent for startKey reaches a leaf all of whose chain predecessors hold keys below startKey |
| BPlusQuery.CollectFrom | lib/bplus-tree.ts:498-523 | the walk along the leaf chain from there collects exactly the chain's keys within startKey..endKey, in order, stopping at the first key above endKey |
| BPlusQuery.RangeSearch | lib/bplus-tree.ts:478-524 | rangeSearch returns the stored keys within startKey..endKey, ascending |
| BPlusQuery.InRangeAscending | lib/bplus-tree.ts:498-512 | the keys in range taken from ascending keys are ascending |
| BPlusValidate.CheckNode | lib/bplus-tree.ts:725-767 | the loops of validateNode return exactly ValidateNode of the node and bounds |
| BPlusValidate.GetLeafDepths | lib/bplus-tree.ts:709-723 | the depths collected are those of the leaves in chain order |
| BPlusValidate.ValidateTree | lib/bplus-tree.ts:686-707 | validate fails when the set of leaf depths has more than one element, and otherwise returns validateNode from the root |
| BPlusValidate.DistinctDepths | lib/bplus-tree.ts:694-699 | the set of depths has more than one element exactly when the depths are not all equal |
| BPlusValidate.DepthsAt | lib/bplus-tree.ts:709-723 | all leaves of a subtree at depth d lie at depth d + h - 1 exactly when it is balanced at height h |
| BPlusValidate.ValidateMeans | lib/bplus-tree.ts:686-707 | on a shaped tree validate passes exactly when the tree is balanced at its calculated height and validateNode passes, and then the stored keys are ascending |
| BPlusSnapshot.ImportExportNode | lib/bplus-tree.ts:618-663 | importing an exported node gives back the node: kind, keys, value lists and children |
| BPlusSnapshot.ExportNode | lib/bplus-tree.ts:618-631 | exportNode: every node is exported, with its kind as isLeaf; ImportExportNode proves it loses nothing |
| BPlusSnapshot.ImportNode | lib/bplus-tree.ts:648-663 | importNode: a missing node becomes an empty leaf, and otherwise the kind follows isLeaf; ImportExportNode proves it inverts exportNode |
| BPlusSnapshot.ExportTree | lib/bplus-tree.ts:607-616 | export always carries a root; ImportExport and ImportExportInto prove what import gives back from it |
| BPlusSnapshot.OrElse | lib/bplus-tree.ts:635-639 | `x \|\| d` on a number: the default unless the field is present and non-zero |
| BPlusSnapshot.ImportTree | lib/bplus-tree.ts:634-646 | import takes each field with the source's default and replaces the root only when the snapshot has one |
| BPlusSnapshot.ImportExport | lib/bplus-tree.ts:607-646 | import(export()) restores every field of a tree whose order, nodeCount, leafCount and height are non-zero, whatever tree it goes into |
| BPlusSnapshot.ImportExportInto | lib/bplus-tree.ts:43-48 | import(export()) into a fresh tree of the same order restores the nodes, order and dataCount, with each zero counter at its default, and the whole state of a tree with order at least 3 and non-zero counters |
| BPlusSnapshot.ImportExportZeroCounts | lib/bplus-tree.ts:636-637 | a tree whose emptied root leaf brought nodeCount and leafCount to 0 comes back with both at 1, so the round trip is not exact |
| BPlusSnapshot.RebuildLeafLinks | lib/bplus-tree.ts:665-683 | the leaves collected child by child are the tree's leaves in order, holding the tree's keys in order |
| Tree.InsertTree | lib/bplus-tree.ts:51-55 | insert on a whole tree keeps the invariant, stores the key in order, grows by at most one level and moves the node and leaf counts with the real ones |
| Tree.RemoveTree | lib/bplus-tree.ts:200-215 | remove on a whole tree finds the key exactly when stored, keeps the invariant, removes the key with its value list and lowers the height by at most one |
| Tree.BPlusTree.constructor | lib/bplus-tree.ts:19-24 | the order is raised to at least 3; one empty root leaf; nodeCount and leafCount 1, dataCount 0, height 1 |
| Tree.BPlusTree.Insert | lib/bplus-tree.ts:51-55 | the key goes to its sorted place or its value list grows; dataCount rises by one even for a duplicate; nodeCount and leafCount stay as far from the real counts as before; the height rises by at most one |
| Tree.BPlusTree.Remove | lib/bplus-tree.ts:200-217 | the corrected removal (the line-254 update skipped when the child is gone, see "## Findings"): returns whether the key was stored; if so removes it and its value list, lowers dataCount by one and the height by at most one, and the counters stay as far from the real counts as before, except for an emptied root leaf; otherwise nothing changes |
| Tree.BPlusTree.Search | lib/bplus-tree.ts:447-475 | the value list stored under the key, [] when it is absent |
| Tree.BPlusTree.RangeSearch | lib/bplus-tree.ts:478-524 | exactly the stored keys within startKey..endKey, ascending |
| Tree.BPlusTree.Validate | lib/bplus-tree.ts:686-707 | returns the validate function of the root; a tree kept by these methods always passes |
| Tree.BPlusTree.Export | lib/bplus-tree.ts:607-631 | the snapshot carries the order and the four counters, and importing its root gives back the root |
| Tree.BPlusTree.Import | lib/bplus-tree.ts:634-646 | the fields become ImportTree of the old fields and the snapshot, and the chain is rebuilt when a root was imported |
| Tree.BPlusTree.Clone | lib/bplus-tree.ts:43-48 | the copy holds the same nodes, order, dataCount and height; a zero nodeCount or leafCount comes back as 1; a valid tree's copy is valid and, when nodeCount and leafCount are non-zero, equal in every field |

## Left out

- The `next` references of leaves are the class's `chain` field, the leaves in order. It is rebuilt after every operation rather than patched link by link. Aliasing between the chain and the nodes is not modelled, and neither is sharing of node arrays between trees.
- Node identity: nodes are values. `findParent` (lines 176-197) is replaced by the recursion, where the parent is the enclosing level. Its "not found" safety returns (lines 336-344, 429-437) cannot happen on a tree reached from the root.
- The guards for a missing child (lines 81-84, 245-249), for missing children in `search`/`rangeSearch`/`calculateHeight` (lines 455-457, 486-488, 571-574) and for a missing root (lines 201-203, 448-450, 479-481, 687-689) are left out. Under the invariant the child index is always in range, and `Node` always has a children sequence and a root.
- Tree.BPlusTree.Insert, Remove, Search and RangeSearch require `Valid()`. The source leaves that state in two ways. One is `import`, which checks nothing. The other is the TypeError at line 254: by then the handler's merge and root collapse (lines 300-315, 346-351) have run, but the `dataCount` decrement and `updateHeight` (lines 206-208) have not. In the example under "## Findings" the object is left with root [5] and height 2. The model states what import does and that the line-254 call throws. It does not model the state left after the TypeError, nor how the other methods behave on such a state.
- Tree.BPlusTree.Remove: models the corrected removal, with the line-254 separator update skipped when the child is gone, so it never throws. The outcome as written, TypeError included, is BPlusRemove.RemoveAsWritten.
- Tree.BPlusTree.constructor: takes the order as a required argument; the source's default of 4 (line 19) is not modelled, since every caller passes an order.
- `printTree`/`printNode`, the `console.error` calls in `validate`, the `try`/`catch` around it, and the getters are left out. They are logging and plain field reads.
- Snapshot fields that are not numbers (NaN, strings, objects) are left out. So are a non-boolean `isLeaf` and value lists with other elements. A snapshot is typed, with a missing field as `None`.
- The UI files (`components/b-plus-tree-visualizer.tsx`, `lib/tree-visualizer.ts`, `app/page.tsx`) are not part of this model.
- Keys are modelled as unbounded integers. The tree only compares keys with `<`, `<=` and `===`, so any finite numeric keys (fractional ones such as 0.5 or 0.30000000000000004 included) behave as the integers of the same order. NaN keys, infinities and a fractional or non-numeric imported order are not modelled.
- BPlusQuery.DescendToLeaf: states only that every key before the reached leaf is below startKey, which is all that CollectFrom needs.

## Findings

| source | as written | input that shows it | evidently intended | confidence | as-written member | corrected member |
|---|---|---|---|---|---|---|
| lib/bplus-tree.ts:254 | after the recursive call, removeRecursive reads `node.children[childIndex].isLeaf` without checking that the child still exists; a merge into the left sibling of the last child, or the root collapse in the handler, leaves `node` with fewer children and the read throws a TypeError | order 4, root [15] over leaves [5] and [15], `remove(15)`: the right leaf empties, merges into [5], the root is replaced by [5], and the old root's update reads `children[1]` of a node with one child | skip the separator update when the child at `childIndex` no longer exists; remove then returns true with the leaf [5] as the root | not executed | BPlusRemove.RemoveAsWritten, BPlusRemove.RemoveThrowsAfterMergeLeft | BPlusRemove.RemoveFromRoot, BPlusRemove.RemoveFromRootSound |

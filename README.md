# LinkedBST in Dafny

This project models `LinkedBST` from linkedbst.py. It is a binary search tree built from linked nodes. The tree object holds a root pointer `_root` and an item counter `_size`. Each node holds `data`, `left` and `right`. Items smaller than a node's item go into its left subtree. All other items, equal ones included, go into its right subtree, so duplicates are allowed.

The project has these parts:

- `LinkedBSTs.LinkedBST` is a class with the fields `root` and `size`. Its methods follow the loops of the source one by one: the descent of `find`, the descent of `add` and its link to a new leaf, and the descent of `remove` below a sentinel pre-root node, tracking the parent and side. Then comes `lift_max_in_left_subtree_to_top`, the relinking of the parent, and the reset of the counter and root. After that come the overwrite done by `replace`, the stack walk of `__iter__`, and `rebalance` with its recursive `create_tree`.
- The ghost field `shape` is a snapshot of the node graph (module `LinkedNodes`). `Linked` says the snapshot agrees with the heap. `Distinct` says no node is shared. `Abs` maps the snapshot to a pure `Tree` value (module `BinaryTrees`). `Valid()` ties `root`, `shape` and `size` together.
- Each descent loop carries a ghost zipper context. This is the sequence of frames of the nodes above the current one. Through it each pointer write is proved to change the denoted tree exactly as the pure reference operation says.
- The pure reference operations are `Search`, `Insert`, `Delete`, `RemoveMax`, `ReplaceFirst`, `InOrder`, `PreOrder`, `InRange`, `TreeHeight`, `SuccessorFrom`, `PredecessorFrom` and `Render`. `Search`, `Insert`, `Delete`, `RemoveMax`, `ReplaceFirst`, `InOrder`, `InRange`, `TreeHeight`, `SuccessorFrom`, `PredecessorFrom` and `Render` follow the branches of the recursions and descents of the source. `PreOrder` is instead the recursive root-left-right definition of preorder. The stack loop of `__iter__` (linkedbst.py:41-49) is proved to yield exactly it (`NodeWalks.PreOrderWalk`). The lemmas about them state what the source promises: contents as a multiset, the ordering, sortedness, completeness, and least elements above and below.
- The ordering kept is the non-strict one: left items <= node item <= right items (`Ordered`). In `remove`'s two-child case, the maximum of the left subtree is lifted into the removed node. When that maximum is stored twice, one copy stays in the left subtree. So the strict "left < node" ordering is not preserved. The code keeps only the non-strict ordering, and that ordering is enough for `find`.
- `StrictOrdered` is the ordering for trees of distinct items. An ordered tree that stores no item twice is strictly ordered (`BinaryTrees.OrderedDistinctIsStrict`). That holds, for instance, for a tree built from distinct items by the constructor or `add`. The successor and predecessor guarantees hold for such trees. Lemma `Neighbours.SuccessorWithDuplicates` shows a tree where they fail with duplicates.
- `rebalance` is modelled as the source writes it: collect the items by preorder iteration, clear, sort, and add them back in `create_tree` order. Call the sorted list `sorted`. The result is `InsertAll(Leaf, Medians(sorted))`: the same multiset, the same size, and ordered. When no item is stored twice it equals `Balanced(sorted)`, lists `sorted` again in order, and has the least height its size allows (`MinHeight`, that is floor(log2 n) for n nodes).

Modules:

| module | file |
|---|---|
| `Options` | options.dfy |
| `Arith` | arith.dfy |
| `Sequences` | sequences.dfy |
| `BinaryTrees` | trees.dfy |
| `LinkedNodes` | shapes.dfy |
| `Neighbours` | neighbours.dfy |
| `Rendering` | render.dfy |
| `Rebalancing` | rebalance.dfy |
| `NodeWalks` | walks.dfy |
| `LinkedBSTs` | linkedbst.dfy |

Items are `int`s.

## Model

| member | source | states |
|---|---|---|
| LinkedBSTs.LinkedBST.constructor | linkedbst.py:16-20 | starts empty and adds the items of the source collection in order, so that items == its contents, ordered, fresh nodes |
| LinkedBSTs.LinkedBST.AddAll | linkedbst.py:16-20 | the add loop of the collection constructor: the tree after adding each item in order, valid, only new nodes added |
| LinkedBSTs.LinkedBST.Find | linkedbst.py:80-95 | the descent returns Search of the tree; a found value equals x; on an ordered tree it is found iff x is stored; no field or node changes; the tree stays valid for the next call |
| LinkedBSTs.LinkedBST.FoundIsContained | linkedbst.py:86-93 | on an ordered tree the descent that goes left exactly on x < item finds x iff x is stored |
| LinkedBSTs.LinkedBST.Contains | linkedbst.py:76-78 | true iff find succeeds; on an ordered tree iff x is stored; the tree stays valid for the next call |
| LinkedBSTs.LinkedBST.IsEmpty | linkedbst.py:107 | true iff the tree is empty; the tree stays valid for the next call |
| LinkedBSTs.LinkedBST.Clear | linkedbst.py:98-101 | the tree is empty, valid and owns no node |
| LinkedBSTs.LinkedBST.Add | linkedbst.py:103-125 | the tree becomes Insert(old tree, x); one more occurrence of x; size + 1; ordering kept; the nodes are the old ones plus one fresh node (the ghost result `leaf`) |
| LinkedBSTs.LinkedBST.AddBelowRoot | linkedbst.py:111-124 | in a non-empty tree the new leaf hangs at the end of the search path of x (left on x < item, right otherwise); root and size unchanged; the nodes are the old ones plus the one fresh leaf |
| LinkedBSTs.AttachLeaf | linkedbst.py:113-122 | the new leaf fills the missing child of the last node on the path; the denoted tree is Insert below that node, grafted into its context |
| LinkedBSTs.LinkedBST.Remove | linkedbst.py:127-212 | absent x: Err("Item not in tree."), nothing changes; present x: Ok(x), the tree becomes Delete(old tree, x), one occurrence of x fewer, size - 1, ordering kept; root is null iff the tree is empty; no node is added |
| LinkedBSTs.DeletePreserves | linkedbst.py:179-211 | deleting a stored x removes exactly one occurrence of it and keeps the ordering |
| LinkedBSTs.LocateBelowSentinel | linkedbst.py:156-173 | the descent below the sentinel stops at the first node holding x, with its parent and its side (the sentinel's left side at the root) |
| LinkedBSTs.Unlink | linkedbst.py:179-202 | the two-child case lifts the left maximum; otherwise the parent's child on that side becomes the only child (or nothing); the graph below the sentinel denotes Delete |
| LinkedBSTs.LiftMaxInLeftSubtreeToTop | linkedbst.py:135-150 | top takes the maximum of its left subtree, which is removed from there: Node(RemoveMax(left).0, RemoveMax(left).1, right) |
| LinkedBSTs.MoveMaxUp | linkedbst.py:146-150 | top.data gets the rightmost item; the rightmost node's left subtree takes its place below parent (as top.left when parent is top) |
| LinkedBSTs.LinkedBST.ShrinkTo | linkedbst.py:204-211 | size - 1; root reset from the sentinel's left child, or null when the tree became empty |
| LinkedBSTs.LinkedBST.Replace | linkedbst.py:214-228 | returns Search of the old tree; the first node equal to x on the search path gets y (ReplaceFirst); one x traded for one y; same nodes, same links; no match: nothing changes |
| LinkedBSTs.LinkedBST.ReplaceFound | linkedbst.py:220-223 | only the data of the found node changes, to y |
| LinkedBSTs.LinkedBST.Iter | linkedbst.py:38-49 | yields the preorder of the tree: each stored occurrence once, root first; the tree stays valid for the next call |
| LinkedBSTs.LinkedBST.Inorder | linkedbst.py:55-66 | yields the in-order of the tree, each stored occurrence once; sorted on an ordered tree; the tree stays valid for the next call |
| LinkedBSTs.LinkedBST.RangeFind | linkedbst.py:256-275 | the in-order items x with low <= x <= high, in that order; on an ordered tree sorted and holding every stored item of the range; the tree stays valid for the next call |
| LinkedBSTs.LinkedBST.Height | linkedbst.py:230-247 | the height: -1 iff empty, below the size, never below the least height a tree of this size can have; the tree stays valid for the next call |
| LinkedBSTs.LinkedBST.ToString | linkedbst.py:23-36 | one line per node, in the row order of the rotated tree; the tree stays valid for the next call |
| LinkedBSTs.LinkedBST.Successor | linkedbst.py:300-327 | on an ordered tree storing no item twice: None iff no stored item is greater than x, otherwise the least such item; the tree stays valid for the next call |
| LinkedBSTs.LinkedBST.Predecessor | linkedbst.py:329-356 | on an ordered tree storing no item twice: None iff no stored item is smaller than x, otherwise the greatest such item; the tree stays valid for the next call |
| LinkedBSTs.LinkedBST.CreateTree | linkedbst.py:290-296 | adds the middle item, then the items before it and after it, recursively (the Medians order) |
| LinkedBSTs.LinkedBST.Rebalance | linkedbst.py:277-298 | same multiset, same size, ordered, all nodes new; on distinct items the balanced tree over the sorted items, in order the sorted items, of least height |
| LinkedBSTs.LinkedBST.RebuildFrom | linkedbst.py:286-298 | clear, sort, create_tree: the tree built from the sorted items in Medians order, all nodes new |
| NodeWalks.InOrderFrom | linkedbst.py:59-63 | the recursion below a node appends the in-order of the subtree it roots |
| NodeWalks.InRangeFrom | linkedbst.py:265-272 | the recursion below a node appends the in-order items of its subtree within [low, high] |
| NodeWalks.HeightFrom | linkedbst.py:236-245 | height1 below a node is the height of the subtree it roots |
| NodeWalks.RenderFrom | linkedbst.py:27-34 | recurse(node, level) is the rendering of the subtree it roots at that depth |
| NodeWalks.FindSuccessor | linkedbst.py:309-325 | the recursive descent and the left-spine loop compute SuccessorFrom of the subtree |
| NodeWalks.FindPredecessor | linkedbst.py:338-354 | the mirror image: PredecessorFrom of the subtree |
| NodeWalks.PreOrderWalk | linkedbst.py:41-49 | the stack loop yields the preorder of the tree below the root |
| NodeWalks.PushChildren | linkedbst.py:46-49 | pushes the right child, then the left child, each if present |
| NodeWalks.PopPush | linkedbst.py:44-49 | popping a node and pushing its children leaves its preorder, minus its own item, to be yielded |
| LinkedNodes.BSTNode.constructor | linkedbst.py:108 | `BSTNode(item)`: a node of class `BSTNode` (fields data, left, right) holding the item, with no children |
| LinkedNodes.Relink | linkedbst.py:114 | the write `parent.left = child` or `parent.right = child` (also at 121, 148, 150, 200, 202): the old subtree on that side is replaced by the child's, the graph stays a tree without shared nodes, and the denoted tree is the new subtree grafted into the same context |
| LinkedNodes.Overwrite | linkedbst.py:146 | the write `top.data = ...` (also `probe.data = new_item` at 222): only that node's item changes; same nodes, same links, same root |
| BinaryTrees.Insert | linkedbst.py:103-125 | reference for `add`: a new leaf at the end of the search path, left on x < item, right otherwise; no contract of its own, its properties are InsertElems, InsertItems, InsertOrdered, InsertSize and SearchAfterInsert |
| BinaryTrees.InsertAll | linkedbst.py:16-20 | reference for adding items one after another (the constructor's loop, `create_tree`'s adds); its properties are InsertAllElems, InsertAllOrdered and SortedInsertionIsChain |
| BinaryTrees.InOrder | linkedbst.py:59-63 | reference for `inorder`'s recursion: left subtree, item, right subtree; its properties are InOrderElems, InOrderSorted and InOrderStrictlySorted |
| BinaryTrees.InRange | linkedbst.py:265-272 | reference for `find_match_elements`: left subtree, the item when low <= item <= high, right subtree; its properties are InRangeIsFilteredInOrder and InRangeSortedAndComplete |
| BinaryTrees.OrderedDistinctIsStrict | linkedbst.py:300-356 | an ordered tree storing no item twice is strictly ordered, so the successor and predecessor guarantees apply to it |
| BinaryTrees.SortedInsertionIsChain | linkedbst.py:230-247 | adding the items of a sorted list in order (1, 2, ..., n) gives a chain along right links with height n - 1, the greatest height n nodes can have |
| BinaryTrees.InsertAtSpineEnd | linkedbst.py:112-124 | an item at least every stored item goes right at every node, so it extends a right chain |
| BinaryTrees.SpineHeight | linkedbst.py:236-245 | a right chain of n nodes has height n - 1 |
| BinaryTrees.Search | linkedbst.py:84-95 | a found value equals x and is stored |
| BinaryTrees.SearchComplete | linkedbst.py:86-93 | on an ordered tree the search finds x iff x is stored |
| BinaryTrees.InsertElems | linkedbst.py:103-125 | insertion adds exactly one occurrence of x |
| BinaryTrees.InsertItems | linkedbst.py:103-125 | the stored set gains x |
| BinaryTrees.InsertOrdered | linkedbst.py:112-124 | insertion keeps the (non-strict) ordering |
| BinaryTrees.InsertSize | linkedbst.py:125 | insertion adds one node |
| BinaryTrees.SearchAfterInsert | linkedbst.py:103-125 | after adding x the search finds x |
| BinaryTrees.InsertAllElems | linkedbst.py:16-20 | adding a sequence adds its multiset |
| BinaryTrees.InsertAllOrdered | linkedbst.py:16-20 | adding a sequence keeps the ordering |
| BinaryTrees.RemoveMax | linkedbst.py:141-150 | the stored set is the remaining tree's plus the maximum |
| BinaryTrees.RemoveMaxElems | linkedbst.py:141-150 | one occurrence of the maximum is removed |
| BinaryTrees.RemoveMaxOrdered | linkedbst.py:141-150 | on an ordered tree the lifted item is the greatest stored and the rest stays ordered |
| BinaryTrees.Delete | linkedbst.py:156-202 | deleting an absent item changes nothing; no item is added |
| BinaryTrees.DeleteElems | linkedbst.py:179-202 | deleting a stored x removes exactly one occurrence |
| BinaryTrees.DeleteSize | linkedbst.py:207 | one node fewer |
| BinaryTrees.DeleteOrdered | linkedbst.py:179-202 | deletion keeps the non-strict ordering |
| BinaryTrees.SearchAfterDelete | linkedbst.py:127-212 | on an ordered tree holding x once, x is not found afterwards |
| BinaryTrees.ReplaceFirst | linkedbst.py:218-228 | no match: unchanged; always the same shape |
| BinaryTrees.ReplaceElems | linkedbst.py:220-223 | one occurrence of x is traded for one of y |
| BinaryTrees.ReplaceBySameItem | linkedbst.py:214-228 | replacing x by x changes nothing |
| BinaryTrees.InOrderElems | linkedbst.py:55-66 | the in-order lists each stored occurrence once |
| BinaryTrees.InOrderSorted | linkedbst.py:55-66 | an ordered tree's in-order is sorted |
| BinaryTrees.InOrderStrictlySorted | linkedbst.py:55-66 | a strictly ordered tree's in-order is strictly increasing |
| BinaryTrees.PreOrder | linkedbst.py:38-49 | a non-empty tree's preorder starts with the root item |
| BinaryTrees.PreOrderElems | linkedbst.py:38-49 | the preorder lists each stored occurrence once |
| BinaryTrees.InRangeIsFilteredInOrder | linkedbst.py:256-275 | range_find is the in-order filtered to [low, high] |
| BinaryTrees.InRangeSortedAndComplete | linkedbst.py:256-275 | on an ordered tree the range result is sorted and holds exactly the stored items in range |
| BinaryTrees.TreeHeight | linkedbst.py:236-245 | -1 <= h < size; -1 iff empty |
| BinaryTrees.HeightAtLeastMinimal | linkedbst.py:230-247 | no tree of n nodes is lower than floor(log2 n) |
| BinaryTrees.SizeIsCardinality | linkedbst.py:125 | the node count is the size of the contents multiset |
| BinaryTrees.StrictOrderedIsOrdered | linkedbst.py:300-356 | a tree of distinct ordered items is ordered and holds no item twice |
| Neighbours.Leftmost | linkedbst.py:316-320 | the end of the left spine is a stored item |
| Neighbours.LeftmostIsLeast | linkedbst.py:316-320 | on an ordered tree it is the least item |
| Neighbours.Rightmost | linkedbst.py:345-349 | the end of the right spine is a stored item |
| Neighbours.RightmostIsGreatest | linkedbst.py:345-349 | on an ordered tree it is the greatest item |
| Neighbours.SuccessorFrom | linkedbst.py:309-325 | reference for `find_successor`: the result is the candidate it was given or a stored item; its guarantees are SuccessorFromCorrect and SuccessorIsLeastAbove |
| Neighbours.PredecessorFrom | linkedbst.py:338-354 | reference for `find_predecessor`: the result is the candidate it was given or a stored item; its guarantees are PredecessorFromCorrect and PredecessorIsGreatestBelow |
| Neighbours.SuccessorFromCorrect | linkedbst.py:309-325 | for a candidate above x and above the subtree, the descent returns the least item above x, or the candidate when none is stored |
| Neighbours.PredecessorFromCorrect | linkedbst.py:338-354 | the mirror image for the greatest item below x |
| Neighbours.SuccessorIsLeastAbove | linkedbst.py:300-327 | successor on distinct items: None iff nothing is stored above x, else the least stored item above x, whether or not x itself is stored |
| Neighbours.PredecessorIsGreatestBelow | linkedbst.py:329-356 | predecessor on distinct items: None iff nothing is stored below x, else the greatest stored item below x, whether or not x itself is stored |
| Neighbours.SuccessorWithDuplicates | linkedbst.py:300-327 | with 5 stored twice, the successor of 5 is 5 |
| Rendering.Show | linkedbst.py:32 | str(item) is a non-empty line without a line break |
| Rendering.Render | linkedbst.py:27-34 | reference for `recurse(node, level)`: right subtree one level deeper, "| " per level and the item on its own line, left subtree one level deeper; its properties are RenderIsRows and RowsAreReversedInOrder |
| Rendering.Rows | linkedbst.py:27-34 | the (depth, item) pair of each line of the rendering, top line first |
| Rendering.RenderIsRows | linkedbst.py:27-34 | the rendering is one line per node, indent by depth, in row order |
| Rendering.RowsAreReversedInOrder | linkedbst.py:27-34 | top to bottom, the lines list the items in reverse in-order |
| Rebalancing.Medians | linkedbst.py:290-296 | the order in which `create_tree` adds the items: the middle item, then the order for the items before it, then for the items after it; its properties are MediansPermutation and InsertAllMedians |
| Rebalancing.Balanced | linkedbst.py:290-296 | the tree with the middle item at the root and both halves built the same way; MediansBuildBalanced, BalancedInOrder and BalancedHeight relate it to `create_tree` |
| Rebalancing.MediansPermutation | linkedbst.py:290-296 | create_tree adds each item of its list exactly once |
| Rebalancing.InsertAllMedians | linkedbst.py:290-296 | create_tree adds the middle item, then the items before, then the items after |
| Rebalancing.MediansBuildBalanced | linkedbst.py:290-296 | on a strictly sorted list create_tree builds the balanced tree over it |
| Rebalancing.BalancedInOrder | linkedbst.py:277-298 | the balanced tree lists its list again in order |
| Rebalancing.BalancedHeight | linkedbst.py:277-298 | the balanced tree over n items has height floor(log2 n) |
| Rebalancing.LeftHeavyHeight | linkedbst.py:290-296 | a tree whose left parts are never smaller than the right ones and at most one larger is of least height |
| Rebalancing.RebuildFacts | linkedbst.py:277-298 | the rebuilt tree has the old items, size and ordering; on distinct items it is balanced, lists the sorted items and is of least height |
| Sequences.SortSeq | linkedbst.py:288 | nodes.sort(): a sorted permutation |
| Sequences.Filter | linkedbst.py:269-270 | exactly the entries in [low, high] |
| Arith.MinHeight | linkedbst.py:230-247 | -1 exactly for 0 nodes |
| Arith.MinHeightIsLeast | linkedbst.py:230-247 | MinHeight(n) <= h whenever n < 2^(h+1), so it is the least such h |

## Left out

- `is_balanced` (linkedbst.py:249-254) uses the floating-point natural logarithm. Floating point is not modelled. `Rebalance` and `BalancedHeight` state the exact height instead.
- `preorder`, `postorder` and `levelorder` (linkedbst.py:51-53, 68-74) only return None. They are not modelled.
- `demo_bst` and the `__main__` block (linkedbst.py:358-428) read a file, draw random samples and measure wall-clock time. This is I/O and benchmarking.
- The branches at linkedbst.py:153-154 and 176-177 of `remove` cannot be reached once the membership test at 131-132 has passed: the tree is non-empty, and the descent meets x. They are not modelled.
- `__iter__` and `inorder` return a generator and an iterator. Both are modelled as the complete sequence they produce. Laziness and interleaved mutation are not modelled.
- `LinkedStack` is modelled as a sequence with its top last.
- The in-place `list.sort` is modelled by `SortSeq`, a pure insertion sort. Only its result is modelled.
- Items are `int`s, where Python allows any mutually comparable values. The sentinel `BSTNode(None)` of `remove` holds 0 in the model. Its item is never read.
- Python's `str` of an item is modelled by `Show`, the decimal rendering of an int.
- bstnode.py, abstractcollection.py and linkedstack.py are not part of this model. The model assumes three things about them. `BSTNode(item)` makes a node with no children. `isEmpty()` is `_size == 0`. The collection constructor adds each item of the source collection with `add`.
- Raising `KeyError` in `remove` is modelled as the result `Err("Item not in tree.")`, with the tree unchanged.
- LinkedBSTs.LinkedBST.ToString: its contract gives the lines as rows. The order of items in those lines is the separate lemma `Rendering.RowsAreReversedInOrder`.
- LinkedBSTs.LinkedBST.Successor: the least-item-above guarantee is stated only for ordered trees that store no item twice. With duplicates the source can return x itself (`Neighbours.SuccessorWithDuplicates`).
- LinkedBSTs.LinkedBST.Predecessor: the greatest-item-below guarantee is stated only for ordered trees that store no item twice, since the same duplicate issue applies.
- LinkedBSTs.LinkedBST.Rebalance: the balanced shape and the least height are stated only for distinct items. With duplicates, equal items always go right, so the rebuilt tree need not be balanced. The multiset, size and ordering are still kept.
- The ordering is not part of `Valid()`. `replace` can break it, so the operations say under which ordering each promise holds.
- NodeWalks.HeightFrom, NodeWalks.InOrderFrom, NodeWalks.InRangeFrom, NodeWalks.RenderFrom, NodeWalks.FindSuccessor and NodeWalks.FindPredecessor follow the recursions `height1` (linkedbst.py:236-245), `recurse` of `inorder` (59-63), `find_match_elements` (265-272), `recurse` of `__str__` (27-34), `find_successor` (309-325) and `find_predecessor` (338-354). Each recursion goes one call deeper per tree level. Python's recursion limit makes them raise `RecursionError` on trees deeper than about 1000 levels, for instance after adding 1, 2, ..., 1000 in order (`BinaryTrees.SortedInsertionIsChain`). That failure on deep trees is not modelled: the model's versions return their value at any depth.

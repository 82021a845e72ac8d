# Binary search tree (bst.js) in Dafny

This project models `bst.js`, an unbalanced binary search tree over numbers. The tree is built from an array by deduplicating, sorting and splitting at the midpoint. Values are inserted and deleted by iterative descent from the root, looked up with `find`, and listed breadth first (`levelOrder`, `levelOrderForEach`) or in order (`inOrder`). Three recursive visitors give in-, pre- and post-order. The queries `height`, `depth` and `isBalanced` measure the tree, and `rebalance` rebuilds it from its in-order values.

Modules:

- `Trees` (trees.dfy): the node structure as a value, `Tree = Nil | Node(left, value, right)`. It also holds the invariants the repository relies on: BST ordering (`Ordered`), AVL-style balance (`Balanced`) and the in-order sequence (`Flatten`).
- `Build` (build.dfy): `buildTree` and `buildTreeHelper`.
- `Measures` (measures.dfy): `height`'s companions `checkHeight`, `isBalanced` and `depth`.
- `Edits` (edits.dfy): recursive reference definitions of insertion (`Inserted`) and deletion (`Deleted`, with `Min`/`RemoveMin` for the in-order successor). It also holds the descent paths (`Frame`, `Plug`) that stand for the parent links the loops track.
- `Traversals` (traversals.dfy): the in-, pre- and post-order visitors.
- `Levels` (levels.dfy): the FIFO queue drain (`Drain`) behind the two level-order loops, and an independent level-by-level definition (`ByLevels`) it is proved equal to.
- `SearchTrees` (search_tree.dfy): the `Tree` class of bst.js as class `SearchTree`, holding the mutable `root`. Its methods are the source's loops: `Insert`, `Delete`, `Find`, `LevelOrderForEach`, `LevelOrder`, `InOrder` and `Rebalance`. Each one is proved against the reference functions.

The source's sentinel returns become outcome datatypes:

- `insert` returns `AlreadyPresent` for `undefined` and `Added` for `this`.
- `delete` returns `EmptyTree` for `undefined`, `NotFound` for `false` and `Removed` for `this`.
- `find` returns `Absent` for `false` and `Found(node)` otherwise.

A write to `parent.left`, `parent.right` or `this.root` is modelled as `root := Plug(path, newSubtree)`. The result is the old tree with exactly that link replaced.

## Model

| member | source | states |
|---|---|---|
| Build.Dedupe | bst.js:15 | `[...new Set(array)]` keeps each value once and loses none: no duplicates, same value set, no longer than the input |
| Build.InsertAscendingSorted | bst.js:15 | inserting a value into an ascending sequence keeps it ascending |
| Build.InsertAscendingCount | bst.js:15 | inserting adds exactly one occurrence of the value and keeps every other element |
| Build.Sort | bst.js:15 | the numeric sort returns an ascending permutation of its input |
| Build.SortDistinct | bst.js:15 | sorting a duplicate-free array gives a strictly ascending array with the same values |
| Build.BuildTreeHelper | bst.js:19-26 | the element at index floor(n/2) becomes the root and the parts before and after it are built the same way; the tree is empty exactly when the array is |
| Build.SplitAround | bst.js:21-24 | an array is its slice before the middle index, the middle element and its slice after |
| Build.IncreasingBefore | bst.js:23 | the slice before the middle of a strictly ascending array ascends and lies below the middle element |
| Build.IncreasingAfter | bst.js:24 | the slice after the middle of a strictly ascending array ascends and lies above the middle element |
| Build.BuildTreeHelperContents | bst.js:19-26 | the midpoint build stores exactly the values of its input array |
| Build.BuildTreeHelperFlatten | bst.js:19-26 | the midpoint build's in-order sequence is exactly its input array |
| Build.MidpointHeight | bst.js:19-26 | the height recursion of the midpoint build, which halves the element count at each level; never below -1 |
| Build.MidpointHeightLog | bst.js:19-26 | for n > 0 elements the midpoint height h is floor(log2 n): 2^h <= n < 2^(h+1) |
| Build.MidpointHeightMonotone | bst.js:21-24 | more elements never give a lower midpoint build |
| Build.MidpointHeightStep | bst.js:21-24 | one more element raises the midpoint build's height by at most one |
| Build.BuildTreeHelperHeight | bst.js:19-26 | the midpoint build of n elements has height floor(log2 n), whatever the values |
| Build.BuildTreeHelperBalanced | bst.js:19-26 | the midpoint build is balanced: at every node the subtree heights differ by at most one |
| Build.BuildTreeHelperOrdered | bst.js:19-26 | the midpoint build of a strictly ascending array satisfies BST ordering |
| Build.BuildTree | bst.js:14-17 | deduplicate, sort ascending, then build at the midpoints; the tree is empty exactly when the array is |
| Build.BuildTreeCorrect | bst.js:14-17 | building from any array gives an ordered, balanced tree holding exactly the array's values, with strictly ascending in-order sequence |
| Build.BuildTreeSortsUnique | bst.js:14-17 | the built tree's in-order sequence is the input deduplicated and sorted: the only strictly ascending listing of its values |
| Trees.Flatten | bst.js:237-249 | the values in in-order (left subtree, node, right subtree), one entry per node |
| Trees.FlattenContents | bst.js:237-249 | the in-order sequence has one entry per node and lists exactly the stored values |
| Trees.Height | bst.js:199-206 | height is -1 exactly for an absent node, and below the node count otherwise |
| Trees.FlattenIncreasing | bst.js:237-249 | the in-order sequence of an ordered tree is strictly ascending |
| Trees.IncreasingAround | bst.js:240-245 | two ascending runs, all below and all above a value, joined around it, ascend |
| Trees.IncreasingUnique | bst.js:237-249 | two strictly ascending sequences with the same values are equal |
| Trees.NodesWithin | bst.js:124-131 | a node reached below a tree is a real node, its value is stored in the tree, and its nodes and values are part of the tree's |
| Measures.CheckHeight | bst.js:220-232 | `checkHeight` is the height plus one when the subtree is balanced, and -1 exactly when some node below is unbalanced |
| Measures.IsBalanced | bst.js:219-235 | `isBalanced` holds exactly when every node's subtree heights differ by at most one |
| Measures.Depth | bst.js:208-217 | `depth` is -1 exactly when the target is not a node below the start node, and otherwise at least the start depth |
| Measures.SearchDepth | bst.js:124-131 | the number of steps `find`'s descent takes to reach the value, or -1 when it falls off; always below the node count |
| Measures.SearchDepthFinds | bst.js:119-134 | in an ordered tree the search path for a value falls off exactly when the value is not stored |
| Measures.DepthFollowsSearchPath | bst.js:208-217 | in an ordered tree, `depth`'s left-first search finds a node at the length of the BST search path to its value |
| Measures.DepthOfRoot | bst.js:208-211 | the start node has depth 0, and a node not below it has depth -1 |
| Edits.PlugExtend | bst.js:74-78 | descending one more step and then writing the link is writing the link in the parent |
| Edits.Inserted | bst.js:41-65 | recursive insertion: a new leaf where the search for the value falls off, nothing when it is present; the values become the old ones plus the value |
| Edits.InsertedCorrect | bst.js:41-65 | insertion adds exactly the value and keeps BST ordering; a present value leaves the tree unchanged, an absent one adds one node |
| Edits.RemoveMin | bst.js:98-109 | the leftmost node spliced out, its right child taking its place; with the minimum it gives back the tree's values |
| Edits.RemoveMinFlatten | bst.js:98-109 | the leftmost node's value comes first in in-order, and splicing it out removes exactly that entry |
| Edits.RemoveMinOrdered | bst.js:98-109 | splicing out the leftmost node keeps BST ordering and removes exactly the minimum, which is below every remaining value |
| Edits.Deleted | bst.js:66-117 | recursive deletion: a node with at most one child is replaced by that child, one with two children takes its successor's value; no value is added |
| Edits.DeletedCorrect | bst.js:66-117 | deletion removes exactly the value and keeps BST ordering, in the leaf, one-child and two-child cases |
| Edits.DeletedSize | bst.js:66-117 | deleting an absent value leaves the tree unchanged; deleting a present one removes one node |
| Edits.InOrderSuccessor | bst.js:97-111 | the value the two-child case copies in is the next value after the node's in the in-order sequence |
| Traversals.InOrderForEach | bst.js:166-175 | the nodes a visitor is handed in left, node, right order; one visit per node |
| Traversals.PreOrderForEach | bst.js:177-186 | the nodes a visitor is handed in node, left, right order; one visit per node |
| Traversals.PostOrderForEach | bst.js:188-197 | the nodes a visitor is handed in left, right, node order; one visit per node |
| Traversals.ValuesOfAppend | bst.js:159 | reading the values of two runs of visited nodes is reading each run in turn |
| Traversals.InOrderVisitsEveryNode | bst.js:166-175 | in-order visits as many nodes as the tree has, and exactly the tree's nodes |
| Traversals.PreOrderVisitsSameNodes | bst.js:177-186 | pre-order visits the same nodes as in-order, each as often |
| Traversals.PostOrderVisitsSameNodes | bst.js:188-197 | post-order visits the same nodes as in-order, each as often |
| Traversals.RootVisitedFirstOrLast | bst.js:183-196 | pre-order visits the start node first and post-order visits it last |
| Traversals.InOrderVisitsValues | bst.js:166-175 | the values in-order hands to the visitor are the `inOrder` array |
| Traversals.InOrderVisitsOnce | bst.js:166-175 | in-order never visits the same node twice |
| Traversals.ValuesOfNodes | bst.js:173 | reading the value of each visited node gives one value per node, in visiting order |
| Traversals.PreOrderValues | bst.js:177-186 | pre-order reads exactly the stored values |
| Traversals.InsertAllAppend | bst.js:41-65 | inserting two runs of values is inserting the first run and then the second |
| Traversals.InsertAllLeft | bst.js:50-55 | values below a node's value all go into its left subtree |
| Traversals.InsertAllRight | bst.js:56-61 | values above a node's value all go into its right subtree |
| Traversals.PreOrderRebuilds | bst.js:177-186 | inserting an ordered tree's pre-order values into an empty tree rebuilds that tree |
| Levels.EnqueuedOne | bst.js:142 | a queue holding just the start node (or nothing for an absent root) has that tree's size, height, levels and nodes |
| Levels.SizeAllAppend | bst.js:147-148 | the nodes below a queue of two runs are those below each run |
| Levels.ChildrenShrink | bst.js:147-148 | replacing queued nodes by their children loses exactly one node per queued node and lowers the tallest height |
| Levels.MaxHeightAppend | bst.js:147-148 | the tallest height in a queue of two runs is the larger of the runs' |
| Levels.LevelAllAppend | bst.js:144-149 | the nodes at a given level below two runs of the queue are those below each run |
| Levels.ChildrenLevel | bst.js:147-148 | level k below the children of the queue is level k+1 below the queue |
| Levels.ChildrenLevels | bst.js:147-148 | levels k..n below the children are levels k+1..n+1 below the queue |
| Levels.LevelZero | bst.js:144-146 | level 0 below a queue of nodes is the queue itself |
| Levels.LevelsOfNothing | bst.js:144 | an empty queue has no levels |
| Levels.AllLevelsByDepth | bst.js:144-149 | listing the levels until none is left is listing any big enough range of levels |
| Levels.DrainFront | bst.js:144-149 | the queue drains its current front in order, and then what follows it together with the front's children |
| Levels.DrainIsAllLevels | bst.js:144-149 | draining the queue lists the nodes below it level by level |
| Levels.LevelsAllSingle | bst.js:144-149 | the levels below a single queued tree are that tree's levels |
| Levels.DrainIsByLevels | bst.js:141-149 | the queue drain started from the root visits the tree level by level, left to right |
| Levels.InOrderAllAppend | bst.js:144-149 | the nodes below a queue of two runs, in in-order, are those below each run in turn |
| Levels.DrainVisitsEveryNode | bst.js:144-149 | draining the queue visits every node below it exactly once |
| Levels.DrainStep | bst.js:145-148 | one `shift` and the pushes of the children: the drain is the front node followed by the drain of the new queue, which holds fewer nodes below it |
| Levels.InOrderAllStep | bst.js:145-148 | the nodes below the queue are unchanged by replacing the front node with its children |
| Levels.DrainReadsEveryValue | bst.js:157-162 | the values read while draining are each stored value exactly once |
| Levels.ByLevelsVisitsEveryNode | bst.js:136-150 | level order visits each node exactly once, and the root first |
| Levels.ByLevelsReadsEveryValue | bst.js:151-165 | level order lists each stored value exactly once (a permutation of in-order), and the root's value first |
| SearchTrees.AppendInOrder | bst.js:240-245 | `traverse` pushes the in-order values below the node onto the result array |
| SearchTrees.SearchTree.constructor | bst.js:10-12 | the new tree is the built tree: ordered, balanced, holding exactly the array's values in strictly ascending in-order |
| SearchTrees.SearchTree.Insert | bst.js:41-65 | the new root is the reference insertion, so it holds the old values plus the value and stays ordered; a present value gives `AlreadyPresent` and no change |
| SearchTrees.SearchTree.Delete | bst.js:66-117 | the new root is the reference deletion, so it holds the old values minus the value and stays ordered; an empty tree gives `EmptyTree`, an absent value `NotFound`, and neither changes the tree |
| SearchTrees.SearchTree.Find | bst.js:119-134 | a node is found exactly when the value is stored; it is a node of the tree holding the value, at the depth of the search path |
| SearchTrees.SearchTree.LevelOrderForEach | bst.js:136-150 | the nodes handed to the visitor are the tree level by level, left to right |
| SearchTrees.SearchTree.LevelOrder | bst.js:151-165 | the returned values are the tree's values level by level, left to right |
| SearchTrees.SearchTree.InOrder | bst.js:237-249 | the returned array is the in-order sequence: strictly ascending and exactly the stored values |
| SearchTrees.SearchTree.Rebalance | bst.js:251-254 | the new root is the midpoint build of the old in-order values; it is ordered and balanced, with the same in-order sequence and values as before |

## Left out

- `prettyPrint` (bst.js:27-40) is console output only.
- The demo driver after the class (`getRandomArray` and the calls that follow it) is not modelled. It uses `Math.random` and `console.log`.
- The `typeof callback !== "function"` checks and the errors they throw are not modelled. A visitor is always a function here. Each `*ForEach` returns the sequence of nodes the visitor would be handed.
- Visitors that change node values or links while a traversal runs are not modelled.
- Values are mathematical integers. JavaScript `Number` semantics (floating point, NaN, `Set`'s SameValueZero equality) are left out, and so is the `a - b` comparator's behaviour on non-integers.
- Build.Sort: any correct ascending sort gives the same result on the distinct values `buildTree` passes it. The model uses insertion sort and does not model the engine's sorting algorithm.
- Node identity is not modelled. A node is a subtree value, and a link write rebuilds the path above it (`Plug`). So aliasing between a node held by a caller (such as the one `find` returns) and the tree is not captured.
- Measures.Depth: the target node is compared as a whole subtree rather than by reference. Two equal subtrees at different places in a tree are therefore not told apart. In an ordered tree this cannot happen, because values are unique.
- SearchTrees.SearchTree.LevelOrderForEach: the ensures ties the visits to `ByLevels`. The facts that every node is visited exactly once and the root first are proved about `ByLevels` in `Levels.ByLevelsVisitsEveryNode`.
- SearchTrees.SearchTree.LevelOrder: the ensures ties the result to `ByLevels`. The permutation of in-order and the root value first are proved in `Levels.ByLevelsReadsEveryValue`.
- SearchTrees.SearchTree.Delete: the two-child case writes the successor's value into the matched node. The model rebuilds that node with the new value in the same place, which is the same tree as a value.

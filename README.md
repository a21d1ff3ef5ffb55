# Binary search tree (tree.js) in Dafny

The project models the binary search tree of `tree.js`: the `Node` record (a
value and the two links `leftChildren` and `rightChildren`) and the `Tree`
class that holds `root`. It covers building a balanced tree from an array,
insertion, deletion with in-order-successor promotion, lookup, the four
traversals, height, reference-based depth, the balance check and
rebalancing. The model has two layers.

- **Value layer.**
  - `TreeModel` (tree_model.dfy) has the datatype `Tree = Nil | Node(left, value, right)`. Its pure functions do what the recursive "return the new subtree" code does, and it proves the lemmas.
  - `SortedSets` (sorted_sets.dfy) models the normalisation `[...new Set(array)].sort((a, b) => a - b)`.
  - `LevelModel` (level_order.dfy) models the queue discipline of `levelOrder`.
- **Heap layer.** `Bst` (bst.dfy) has `class Node` and `class Tree`.
  - Each node carries ghost state: the set `Repr` of nodes hanging from it, and the `TreeModel.Tree` value `Model` that the links spell out.
  - `insert` and `delete` relink children in place. `delete` also overwrites `value`. `findMin` is a `while` loop, and `levelOrder` is a loop over a queue.
  - Each of these is proved against the value-layer function it implements.
  - `buildTree` allocates fresh nodes. The pure queries are functions that read the heap.

Two behaviours of the source are kept as written:

- The public `insert` and `delete` call the recursive function with `root = this.root` and discard its result. Inserting into an empty tree therefore leaves it empty. Deleting the value held by a root with at most one child changes nothing. `Bst.Tree.Insert` and `Bst.Tree.Delete` state exactly that. `InsertAt` and `DeleteAt` carry the clean contracts.
- `levelOrder` on an empty tree starts from the queue `[null]`. It hands `null` to the callback and then reads `null.leftChildren`, which throws. The model returns `Failed(NullDereference, [null])`, not zero visits.

`levelOrder` is thus the only traversal that does not finish with zero visits
on an empty tree; `inOrder`, `preOrder` and `postOrder` return at once on a
`null` root (tree.js:113, tree.js:124, tree.js:135).

Callbacks are modelled as the sequence of nodes they receive. The `typeof callback !== "function"` guard is a Boolean argument, `callbackIsFunction`. When it is false, the traversal fails with `CallbackRequired` before any visit.

## Model

| member | source | states |
|---|---|---|
| SortedSets.SortedDistinct | tree.js:17 | the normalised array is strictly ascending (so duplicate-free) and has exactly the elements of the input |
| SortedSets.InsertSorted | tree.js:17 | adding one value to an ascending duplicate-free sequence keeps it ascending and adds exactly that value to its elements |
| SortedSets.IncreasingUnique | tree.js:17 | two ascending duplicate-free sequences with the same elements are equal, so the normal form is unique |
| SortedSets.SortedDistinctOfSorted | tree.js:17 | normalising an already ascending duplicate-free array returns it unchanged |
| SortedSets.SortedDistinctIdempotent | tree.js:17 | normalising twice is normalising once |
| SortedSets.JoinIncreasing | tree.js:21-27 | `left + [x] + right` is ascending iff both sides are ascending, every left value is below `x` and every right value above it |
| TreeModel.Height | tree.js:141-149 | the height is at least -1, and it is -1 exactly for the empty tree |
| TreeModel.Insert | tree.js:51-59 | the values become the old values plus `v`; an ordered tree stays ordered; in an ordered tree, inserting a value already present returns the same tree |
| TreeModel.Min | tree.js:80-85 | the leftmost value is in the tree and, in an ordered tree, no larger than any value of it |
| TreeModel.Delete | tree.js:60-79 | no value is added; an ordered tree stays ordered and loses exactly `v`; deleting an absent value returns the same tree |
| TreeModel.BuildRange | tree.js:21-30 | the range `[start, end]` gives the empty tree iff `start > end`, a tree with `end - start + 1` nodes otherwise, and every node has a right half as big as its left half or one bigger |
| TreeModel.BuildRangeInOrder | tree.js:21-30 | the midpoint split lists the range's elements in order: its in-order sequence is `a[start..end + 1]` |
| TreeModel.Build | tree.js:15-30 | `buildTree(array)` is ordered and balanced; its in-order sequence is the sorted distinct values of `array`; it is empty iff `array` is |
| TreeModel.Rebalanced | tree.js:191-195 | the rebuilt tree is ordered and balanced and has the same values; for an ordered tree it has the same in-order sequence |
| TreeModel.InOrder | tree.js:108-118 | the values `inOrder` hands the callback: left subtree, node, right subtree, one entry per node |
| TreeModel.PreOrder | tree.js:119-129 | the values `preOrder` hands the callback: node, left subtree, right subtree, one entry per node |
| TreeModel.PostOrder | tree.js:130-140 | the values `postOrder` hands the callback: left subtree, right subtree, node, one entry per node |
| TreeModel.SearchStep | tree.js:90-91 | in an ordered tree a value below the node's can only be in the left subtree, and one above it only in the right |
| TreeModel.InOrderElements | tree.js:108-118 | the in-order sequence holds exactly the tree's values, one entry per node |
| TreeModel.BstIffSorted | tree.js:108-118 | a tree is ordered iff its in-order sequence is strictly ascending |
| TreeModel.TraversalsPermute | tree.js:119-140 | pre-order and post-order hand the visitor the same multiset of values as in-order |
| TreeModel.MinIsFirstInOrder | tree.js:80-85 | `findMin`'s value is the first value of the in-order sequence |
| TreeModel.SuccessorFollowsInOrder | tree.js:72-75 | in an ordered tree, the value copied into a two-child node is the one right after it in the in-order sequence (its in-order successor) |
| TreeModel.PathsWithinHeight | tree.js:141-149 | no path from the root to a node is longer than the height |
| TreeModel.DeepestLeaf | tree.js:141-149 | a non-empty tree has a path to a leaf whose length is exactly the height |
| TreeModel.BalancedEveryNode | tree.js:167-190 | balance holds iff every node reachable by a path has child heights that differ by at most one |
| TreeModel.BalancedAtEveryPath | tree.js:167-190 | a balanced tree is balanced at the node at the end of every path |
| TreeModel.UnbalancedNode | tree.js:174-181 | an unbalanced tree has a path to a node whose child heights differ by more than one |
| TreeModel.MinHeightMonotone | tree.js:21-27 | the midpoint height `floor(log2 n)` never decreases as `n` grows |
| TreeModel.MidpointShapedHeight | tree.js:21-27 | a tree every node of which splits its size at the midpoint is balanced and has height `floor(log2 size)` |
| TreeModel.BuildHeight | tree.js:15-30 | `buildTree` over `n` distinct values has height `floor(log2 n)` (-1 for none) |
| TreeModel.MinHeightIsMinimal | tree.js:15-30 | no tree with the same number of nodes is lower, so `buildTree` reaches the minimum height |
| TreeModel.BuildOfNormalForm | tree.js:17 | two arrays with the same sorted distinct values build the same tree |
| TreeModel.RebalanceIdempotent | tree.js:191-195 | rebalancing a rebalanced tree gives the same tree |
| LevelModel.Bfs | tree.js:93-107 | the values `levelOrder` hands the callback starting from a queue: shift the front tree, visit its root, push its children at the back; one entry per queued node. An empty (`null`) entry is skipped, whereas the source visits it and then throws, so this follows the source only on queues without `null` entries, which are the only queues `Bst.Tree.LevelOrder` builds |
| LevelModel.Kids | tree.js:103-104 | the children queued for a node hold all of its nodes but itself |
| LevelModel.BfsServesPrefix | tree.js:98-106 | serving a whole prefix of the queue visits its roots and queues their children behind the rest |
| LevelModel.BfsIsLevels | tree.js:93-107 | the level order lists the tree level by level, each level from left to right |
| LevelModel.KidsValues | tree.js:103-104 | a node's value together with the values of the children queued for it is the multiset of its subtree's values |
| LevelModel.BfsVisitsAll | tree.js:93-107 | starting from a queue of subtrees, the level order visits every value of every queued tree, each as often as it occurs; this matches the source for queues without empty entries, the only ones `levelOrder` builds from a non-empty tree |
| LevelModel.LevelOrderPermutes | tree.js:93-107 | the level order of a tree is a permutation of its in-order sequence, one entry per node |
| Bst.Node.constructor | tree.js:1-7 | `new Node(value)` is a leaf holding `value` with both links `null` |
| Bst.Node.SetLeft | tree.js:26 | assigning a proper subtree to `leftChildren` keeps the node proper, with that subtree on the left and the rest unchanged |
| Bst.Node.SetRight | tree.js:27 | the mirror image of `SetLeft` for `rightChildren` |
| Bst.Node.SetValue | tree.js:74 | overwriting `value` keeps both subtrees and every link |
| Bst.PathTo | tree.js:150-166 | the path from a root to one of its nodes, which following the links along it reaches |
| Bst.PathUnique | tree.js:150-166 | a node is reached by exactly one path from the root, the one `PathTo` names |
| Bst.Follow | tree.js:150-166 | following links from a proper subtree gives the node of the value-level subtree at that path, or `null` exactly where that subtree is empty |
| Bst.ServeStep | tree.js:100-104 | one shift and the pushes: the queue stays within the tree, and the level order of the queue loses exactly the served node's value at its front |
| Bst.Tree.BuildRange | tree.js:21-30 | `buildTree(array, start, end)` allocates a fresh proper subtree whose value is the midpoint-split tree of the range |
| Bst.Tree.BuildLeft | tree.js:26 | the left half is built freshly and linked below the node |
| Bst.Tree.BuildRight | tree.js:27 | the right half is built freshly and linked below the node |
| Bst.Tree.BuildTree | tree.js:15-30 | `buildTree(array)` allocates a fresh proper tree whose value is `TreeModel.Build(array)` |
| Bst.Tree.constructor | tree.js:10-13 | `new Tree(array)` keeps `array` and holds a fresh tree equal to `TreeModel.Build(array)`, so ordered and balanced |
| Bst.Tree.InsertAt | tree.js:51-59 | the recursive `insert` returns a proper subtree equal to `TreeModel.Insert` of the old one, the given root itself when there was one, with only fresh nodes added |
| Bst.Tree.InsertIntoLeft | tree.js:54-55 | `insert` into the left subtree, relinked as the new left child |
| Bst.Tree.InsertIntoRight | tree.js:56-57 | `insert` into the right subtree, relinked as the new right child |
| Bst.Tree.DeleteAt | tree.js:60-79 | the recursive `delete` returns a proper subtree equal to `TreeModel.Delete` of the old one; it returns a node other than the root iff the root holds `value` and lacks a child, and then nothing was changed |
| Bst.Tree.DeleteFromLeft | tree.js:63-64 | `delete` from the left subtree, relinked as the new left child |
| Bst.Tree.DeleteFromRight | tree.js:65-66 | `delete` from the right subtree, relinked as the new right child |
| Bst.Tree.DeleteSuccessor | tree.js:72-75 | the two-child case: the node takes the minimum of its right subtree, which is then deleted from that subtree |
| Bst.Tree.FindMin | tree.js:80-85 | the loop stops at a node of the subtree without a left child, holding the leftmost value, which is the subtree's minimum when the subtree is ordered (`TreeModel.Min`) |
| Bst.Tree.FindAt | tree.js:86-92 | a node returned holds `value` and belongs to the subtree; in an ordered subtree, `null` is returned only when `value` is absent |
| Bst.Tree.InOrderVisits | tree.js:113-117 | the callback receives every node of the subtree exactly once, with values in left-node-right order |
| Bst.Tree.InOrderAt | tree.js:108-118 | without a callback function it fails before any visit; otherwise it visits every node once in in-order |
| Bst.Tree.PreOrderVisits | tree.js:124-128 | every node exactly once, with values in node-left-right order |
| Bst.Tree.PreOrderAt | tree.js:119-129 | without a callback function it fails before any visit; otherwise it visits every node once in pre-order |
| Bst.Tree.PostOrderVisits | tree.js:135-139 | every node exactly once, with values in left-right-node order |
| Bst.Tree.PostOrderAt | tree.js:130-140 | without a callback function it fails before any visit; otherwise it visits every node once in post-order |
| Bst.Tree.Height | tree.js:141-149 | `height(node)` equals the value-level height: -1 for `null`, 0 for a leaf |
| Bst.Tree.DepthAt | tree.js:150-166 | from a non-negative `currentDepth`: -1 iff the node is `null` or not in the subtree; otherwise `currentDepth` plus the length of the path to it |
| Bst.Tree.CheckBalance | tree.js:168-187 | reports balanced iff the subtree is balanced, with its height when balanced and 0 otherwise |
| Bst.Tree.Insert | tree.js:51-59 | `tree.insert(value)` keeps `root` and the construction array; the tree becomes `TreeModel.Insert` of the old one, except that an empty tree stays empty |
| Bst.Tree.Delete | tree.js:60-79 | `tree.delete(value)` keeps `root` and the construction array; the tree becomes `TreeModel.Delete` of the old one, except when the root holds `value` and lacks a child, when nothing changes |
| Bst.Tree.Find | tree.js:86-92 | a node is returned iff `value` is in the tree, and it is a node of the tree holding `value` |
| Bst.Tree.InOrder | tree.js:108-118 | `tree.inOrder`: fails without a callback function, else visits every node once with values in in-order sequence, which is strictly ascending because the tree is ordered |
| Bst.Tree.PreOrder | tree.js:119-129 | `tree.preOrder`: fails without a callback function, else visits every node once in pre-order |
| Bst.Tree.PostOrder | tree.js:130-140 | `tree.postOrder`: fails without a callback function, else visits every node once in post-order |
| Bst.Tree.Depth | tree.js:150-166 | `tree.depth(node)` is -1 iff `node` is `null` or not in the tree, and otherwise the number of links from the root to it |
| Bst.Tree.IsBalanced | tree.js:167-190 | true iff every node's child heights differ by at most one |
| Bst.Tree.LevelOrder | tree.js:93-107 | fails without a callback function; on an empty tree it visits `null` and then fails; otherwise it visits nodes of the tree, one per node, with values in level order |
| Bst.Tree.Rebuild | tree.js:192-194 | the in-order values, rebuilt: a fresh proper tree equal to `TreeModel.Rebalanced` of the old one |
| Bst.Tree.PushValues | tree.js:193 | pushing each visited node's value in turn yields the values of the visits in order |
| Bst.Tree.SetRoot | tree.js:194 | after `this.root = r` the tree holds exactly `r`'s nodes |
| Bst.Tree.Rebalance | tree.js:191-195 | `tree.rebalance()` replaces the tree by a fresh one equal to `TreeModel.Rebalanced` of the old one, which is ordered, balanced and has the same in-order sequence |

## Left out

- `prettyPrint` (console output), `generateRandomNumbers` (`Math.random`) and the demo `driver` are not part of this model.
- Callbacks are not modelled as arbitrary code. A traversal returns the sequence of nodes the callback would receive, in order. A callback that is not a function becomes `callbackIsFunction == false`.
- JavaScript numbers are modelled as mathematical integers. Floating point, `NaN` and mixed-type comparisons are not modelled. The comparator `(a, b) => a - b` is then plain `<`.
- `buildTree` is modelled in two parts: the top-level call with `end === null`, and the recursive call over an explicit range. A caller-supplied `start` with the default `end` is not modelled.
- `levelOrder` with a caller-supplied `queue` is not modelled. The model always starts from `[this.root]`.
- `levelOrder`'s tail recursion over the shared queue is modelled as a `while` loop. On an empty tree the single failing step is handled before the loop.
- The traversals re-check the callback guard at every recursive call. The model checks it once, which has the same effect because the callback never changes.
- LevelModel.Bfs: skips an empty entry of the queue, where the source calls the callback with `null` and then throws. The heap loop never queues `null`: it handles the empty tree before the loop and pushes only present children.
- Bst.Tree.DepthAt: says nothing for a negative `currentDepth`, which no caller in the source passes.
- Bst.Tree.LevelOrder: does not state that each node is visited exactly once as a node identity. It states that the visits are nodes of the tree, one per node, and that their values are the level order, a permutation of the in-order values (`LevelModel.LevelOrderPermutes`).
- Recursion and in-place relinking are split into helpers, one per source statement: `InsertIntoLeft`, `DeleteSuccessor`, `BuildLeft`, `SetLeft` and so on. Each helper's contract is stated in terms of the old and new node.
- The recursive traversals are modelled as functions that read the heap, since they change nothing. The order of callback side effects is captured only by the order of the returned visits.
- Stack depth, garbage collection of detached subtrees and concurrency are not modelled.

# Semi-dynamic RMQ tree, modelled in Dafny

This project models the semi-dynamic range-minimum-query tree of `coderodde/SemiDynamicRMQTree`.

The tree is a static, position-balanced binary tree built over key/value pairs sorted by key:
- leaves hold the values;
- every internal node holds the minimum of its two children;
- a map sends each key to its leaf.

After construction only the values change:
- `update(key, v)` lowers the leaf and each of its ancestors to `min(old, v)`;
- `getRangeMinimum(l, r)` finds the split node of the two leaves, collects the paths below it and combines the values of the subtrees hanging off those paths, all but the endpoint leaves' own siblings (the lists `V'` and `V''`), with the two endpoint values.

Keys and values are `int`.

**Node state** (`nodes.dfy`, `Nodes.NodeArena`). The node objects live in an arena class with three sequence fields:
- `values` stands for the `value` field of `AbstractRMQTreeNode`;
- `parents` stands for its `parent` field, with `NoNode` (-1) standing for `null`;
- `kinds` says whether a node is a leaf or an internal node with `leftChild` and `rightChild`.

A node is its index, so Java's identity equality of nodes becomes equality of indices. The setters and allocation are methods with `modifies` clauses that state the whole new state. The getters are plain reads.

**Specification of the shape** (`tree_shape.dfy`, `TreeShape`). The shape of the tree over the arena is described by a ghost datatype `Tree = Leaf(id, key) | Node(id, left, right)`. On it the following are defined:
- the ids and keys of a tree;
- key order (`Ordered`) and id uniqueness (`Unique`);
- the arena link invariant (`Linked`) and the min invariant (`MinConsistent`);
- the leaf-to-root path of a key (`LeafPath`);
- the split subtree of two keys (`SplitTree`);
- the subtrees hanging right of, or left of, a path, excluding the endpoint leaf's own sibling (`RightSubtrees`, `LeftSubtrees`).

**Builder** (`builder.dfy`, `TreeBuilder`):
- `BuildRMQTree` and `BuildRMQTreeImpl` mirror `buildRMQTree` and its recursive helper.
- The recursion is specified by the ghost function `BuildShape`, which allocates nodes in post-order.
- `Built` collects everything the arena then satisfies.
- `BuiltRepresents` proves the tree well formed, linked, min-consistent, keyed exactly by the input and of height at most ⌈log2 n⌉.

**Update and query specification** (`rmq_spec.dfy`, `RMQSpec`):
- Update is specified by `Relax`: every node on the leaf-to-root path becomes `min(old, v)`.
- The query as written is specified by `AsWrittenMinimum`: the minimum of the two endpoint values and the values of the roots of `V'` and `V''`.
- `QueryPaths` proves that the code's lists are the roots of the subtrees hanging right of the left open path and left of the right open path (excluding each endpoint leaf's own sibling).

**The tree** (`rmq_tree.dfy`, `RMQTree.SemiDynamicRMQTree`). The class mirrors `SemiDynamicRMQTree`; every loop of the source is a Dafny `while` or `for` loop with invariants, proved against the specification functions.

**Scenarios** (`scenarios.dfy`, `Scenarios`). These mirror the two unit tests and the two counterexamples.

**The query does not compute the range minimum in general.** The code has two defects, both modelled as written:
- **Endpoint sibling skipped.** `computeLeftPathV` and `computeRightPartV` only add a sibling when the continuation child is in the path set. The endpoint leaf is never in that set, so the sibling of an endpoint leaf is skipped whenever the leaf's parent lies strictly below the split node.
  - On the four-key test tree with values 1..4, after `update(3, 0)`, `getRangeMinimum(2, 4)` yields 2 although the range holds 0 (`RMQSpec.UpdatedRangeCounterexample`). Leaf 3 is the left sibling of the right endpoint's leaf 4, under node 5, the only node of the right path; `computeRightPartV` skips it because that node's right child, leaf 4, is not in the path set.
- **Single-key query walks past the range.** For `leftKey == rightKey` the split node is the leaf itself. `getPath` then walks to the root and `V''` takes in subtrees outside the range.
  - On the same tree, `getRangeMinimum(4, 4)` yields 1 (`RMQSpec.SingleKeyCounterexample`).

What is proved of the query for all inputs:
- the result is at most both endpoint values;
- for two distinct keys it is the value of some leaf inside the range, so it is never below the true range minimum.

**An absent key is a silent no-op in `update`** (SemiDynamicRMQTree.java:79-81): `leafMap.get` returns null and the loop never runs. `Update` does the same, as its `key !in leafMap` ensures says.

## Model

| member | source | states |
|---|---|---|
| Utils.Min | src/main/java/com/github/coderodde/util/Utils.java:13-15 | the result is at most both arguments and is one of them |
| Utils.MinIdempotent | src/main/java/com/github/coderodde/util/Utils.java:14 | `min(x, x) == x` |
| Utils.MinCommutative | src/main/java/com/github/coderodde/util/Utils.java:14 | `min(x, y) == min(y, x)`; on ties both sides are the same integer |
| Utils.MinAssociative | src/main/java/com/github/coderodde/util/Utils.java:14 | `min(min(x, y), z) == min(x, min(y, z))`, which lets repeated lowering along a path commute |
| Utils.MinOf | src/main/java/com/github/coderodde/util/SemiDynamicRMQTree.java:164-172 | the minimum of a non-empty sequence is one of its elements and at most every element |
| Utils.MinOfUnique | src/main/java/com/github/coderodde/util/SemiDynamicRMQTree.java:164-172 | any attained lower bound of a sequence is its minimum |
| Pairs.CompareTo | src/main/java/com/github/coderodde/util/KeyValuePair.java:17-20 | negative, zero or positive exactly when the key is below, equal to or above the other key; the result is -1, 0 or 1 |
| Pairs.CompareToIgnoresValue | src/main/java/com/github/coderodde/util/KeyValuePair.java:18-20 | changing the values never changes the comparison, and pairs with equal keys compare as 0 |
| Pairs.InsertByKey | src/main/java/com/github/coderodde/util/SemiDynamicRMQTreeBuilder.java:45 | ordering by `CompareTo`, inserting a pair with a fresh key into a key-sorted list keeps it sorted and adds exactly that pair |
| Pairs.SortedUnique | src/main/java/com/github/coderodde/util/SemiDynamicRMQTreeBuilder.java:42-45 | two key-sorted lists with the same elements are equal, so the sorted list does not depend on the set's iteration order |
| Pairs.ToList | src/main/java/com/github/coderodde/util/SemiDynamicRMQTreeBuilder.java:42-43 | the list holds each pair of the set exactly once and its keys are distinct |
| Pairs.Sort | src/main/java/com/github/coderodde/util/SemiDynamicRMQTreeBuilder.java:45 | the result is sorted ascending by key and is a permutation of the input |
| Nodes.NodeArena.NewLeaf | src/main/java/com/github/coderodde/util/SemiDynamicRMQTreeBuilder.java:81 | a new leaf is appended with no parent; no existing node changes |
| Nodes.NodeArena.NewInternal | src/main/java/com/github/coderodde/util/SemiDynamicRMQTreeBuilder.java:102 | a new internal node is appended with no parent and no children; no existing node changes |
| Nodes.NodeArena.SetValue | src/main/java/com/github/coderodde/util/AbstractRMQTreeNode.java:12-14 | only that node's value changes, to the given value; parents and children stay |
| Nodes.NodeArena.SetParent | src/main/java/com/github/coderodde/util/AbstractRMQTreeNode.java:20-22 | only that node's parent changes; values and children stay |
| Nodes.NodeArena.SetLeftChild | src/main/java/com/github/coderodde/util/InternalRMQTreeNode.java:18-20 | only the left child of that node changes; its right child, all values and parents stay |
| Nodes.NodeArena.SetRightChild | src/main/java/com/github/coderodde/util/InternalRMQTreeNode.java:22-24 | only the right child of that node changes; its left child, all values and parents stay |
| TreeShape.LeafMapOf | src/main/java/com/github/coderodde/util/SemiDynamicRMQTreeBuilder.java:83 | the key-to-leaf map of a shape has exactly its keys and points into its nodes |
| TreeShape.LeafPath | src/main/java/com/github/coderodde/util/SemiDynamicRMQTree.java:79-84 | the path a walk up from a key's leaf visits is non-empty, ends at the root and stays inside the tree |
| TreeShape.RootIsLeafMinimum | src/main/java/com/github/coderodde/util/SemiDynamicRMQTreeBuilder.java:111-112 | under the min invariant the root holds a value at most every leaf's value, attained by some leaf |
| TreeShape.ParentChildAgree | src/main/java/com/github/coderodde/util/SemiDynamicRMQTreeBuilder.java:105-109 | each internal node has two distinct children inside the tree whose parent is that node; each non-root node is the left or right child of its recorded parent |
| TreeShape.LeafPathEnds | src/main/java/com/github/coderodde/util/SemiDynamicRMQTree.java:79-84 | the walk starts at the leaf the map gives for the key and visits at most height + 1 nodes |
| TreeShape.LeafPathDistinct | src/main/java/com/github/coderodde/util/SemiDynamicRMQTree.java:81-84 | no node occurs twice on a leaf-to-root path |
| TreeShape.LeafPathLinks | src/main/java/com/github/coderodde/util/SemiDynamicRMQTree.java:81-84 | each path node's recorded parent is the next path node; the first is a leaf and every later node is internal with the previous node as a child |
| TreeShape.SplitTreeFacts | src/main/java/com/github/coderodde/util/SemiDynamicRMQTree.java:258-282 | the split subtree holds both keys; for one key it is that key's leaf; for two ordered keys it is internal with the left key on its left and the right key on its right |
| TreeShape.SplitAboveLeaves | src/main/java/com/github/coderodde/util/SemiDynamicRMQTree.java:258-282 | for distinct keys the split node is a strict ancestor of both leaves |
| TreeShape.SplitWalk | src/main/java/com/github/coderodde/util/SemiDynamicRMQTree.java:262-279 | the split node is on the left leaf's path, and it is the first node of the right leaf's path that the left path contains, so the final throw is unreachable |
| TreeShape.LeftOpenPath | src/main/java/com/github/coderodde/util/SemiDynamicRMQTree.java:234-248 | for ordered distinct keys the left path strictly between leaf and split node is the open path inside the split node's left subtree |
| TreeShape.RightOpenPath | src/main/java/com/github/coderodde/util/SemiDynamicRMQTree.java:234-248 | the same for the right key inside the split node's right subtree |
| TreeShape.RightSubtreesAbove | src/main/java/com/github/coderodde/util/SemiDynamicRMQTree.java:181-198 | every subtree hanging right of a key's path (excluding the endpoint leaf's own sibling) is a subtree whose keys all exceed that key |
| TreeShape.LeftSubtreesBelow | src/main/java/com/github/coderodde/util/SemiDynamicRMQTree.java:206-224 | every subtree hanging left of a key's path (excluding the endpoint leaf's own sibling) is a subtree whose keys are all below that key |
| TreeBuilder.BuildShapeIds | src/main/java/com/github/coderodde/util/SemiDynamicRMQTreeBuilder.java:76-115 | the recursion allocates the ids base .. base + 2n - 2, each node once |
| TreeBuilder.BuildShapeLeaves | src/main/java/com/github/coderodde/util/SemiDynamicRMQTreeBuilder.java:79-100 | the leaves read left to right carry the keys of the list in list order |
| TreeBuilder.BuildShapeKeys | src/main/java/com/github/coderodde/util/SemiDynamicRMQTreeBuilder.java:79-100 | the tree's keys are exactly the list's keys |
| TreeBuilder.BuildShapeOrdered | src/main/java/com/github/coderodde/util/SemiDynamicRMQTreeBuilder.java:88-100 | splitting a key-sorted list at size/2 gives a key-ordered tree |
| TreeBuilder.BuildShapeHeight | src/main/java/com/github/coderodde/util/SemiDynamicRMQTreeBuilder.java:88-100 | for at most 2^h pairs the tree has height at most h |
| TreeBuilder.JoinSubtrees | src/main/java/com/github/coderodde/util/SemiDynamicRMQTreeBuilder.java:102-112 | linking two linked, min-consistent subtrees under a new root holding their minimum gives a linked, min-consistent tree |
| TreeBuilder.JoinBuilt | src/main/java/com/github/coderodde/util/SemiDynamicRMQTreeBuilder.java:88-114 | the two recursive results and the new root are what the whole list builds |
| TreeBuilder.LinkUnderNewRoot | src/main/java/com/github/coderodde/util/SemiDynamicRMQTreeBuilder.java:102-112 | a new internal node with the two children, their minimum as value, both children's parent set to it; nothing else changes |
| TreeBuilder.BuildRMQTreeImpl | src/main/java/com/github/coderodde/util/SemiDynamicRMQTreeBuilder.java:76-115 | the arena grows by exactly the nodes of `BuildShape`, over which it satisfies `Built`; the map gains exactly that shape's key-to-leaf entries; earlier nodes stay |
| TreeBuilder.NewLeafHolding | src/main/java/com/github/coderodde/util/SemiDynamicRMQTreeBuilder.java:132-133 | a new parentless leaf holding the given value is appended |
| TreeBuilder.LoadLeafMap | src/main/java/com/github/coderodde/util/SemiDynamicRMQTreeBuilder.java:128-136 | the map gains exactly the set's keys, other entries stay, and each key maps to a leaf holding its pair's value |
| TreeBuilder.BuildRMQTree | src/main/java/com/github/coderodde/util/SemiDynamicRMQTreeBuilder.java:27-57 | fails exactly on an empty set; otherwise a fresh arena built over the pairs sorted by key, with the root and the leaf map of that shape |
| TreeBuilder.BuiltRepresents | src/main/java/com/github/coderodde/util/SemiDynamicRMQTreeBuilder.java:76-115 | the built arena represents a well-formed, linked, min-consistent tree; each input key maps to a leaf holding its value; no other key is present; height at most ⌈log2 n⌉ |
| RMQSpec.RelaxPreservesMin | src/main/java/com/github/coderodde/util/SemiDynamicRMQTree.java:81-84 | lowering every node of a leaf-to-root path to `min(old, v)` keeps the min invariant |
| RMQSpec.RelaxTwice | src/main/java/com/github/coderodde/util/SemiDynamicRMQTree.java:82 | updating with `v1` and then `v2` equals one update with `min(v1, v2)` |
| RMQSpec.RelaxIdempotent | src/main/java/com/github/coderodde/util/SemiDynamicRMQTree.java:82 | repeating an update changes nothing |
| RMQSpec.RelaxNeverRaises | src/main/java/com/github/coderodde/util/SemiDynamicRMQTree.java:82 | an update never raises a value: every path node drops to at most the new value, no other value changes, and the arena keeps its size |
| RMQSpec.PathBelowLeaf | src/main/java/com/github/coderodde/util/SemiDynamicRMQTree.java:81-84 | under the min invariant every node on a leaf's path holds at most the leaf's value |
| RMQSpec.RelaxNoOpWhenLarger | src/main/java/com/github/coderodde/util/SemiDynamicRMQTree.java:82 | an update with a value at least the leaf's current value changes nothing |
| RMQSpec.OtherLeafOffPath | src/main/java/com/github/coderodde/util/SemiDynamicRMQTree.java:81-84 | no other key's leaf lies on a key's leaf-to-root path |
| RMQSpec.RelaxLeaves | src/main/java/com/github/coderodde/util/SemiDynamicRMQTree.java:78-85 | after an update the leaf and the root hold `min(old, v)` and every other leaf keeps its value |
| RMQSpec.LeftPathVIsRightSubtrees | src/main/java/com/github/coderodde/util/SemiDynamicRMQTree.java:181-198 | on an open path the loop's `V'` is exactly the roots of the subtrees hanging right of it (excluding the endpoint leaf's own sibling), bottom-up, and each path node is internal so the cast holds |
| RMQSpec.RightPathVIsLeftSubtrees | src/main/java/com/github/coderodde/util/SemiDynamicRMQTree.java:206-224 | on an open path the loop's `V''` is exactly the roots of the subtrees hanging left of it (excluding the endpoint leaf's own sibling), bottom-up |
| RMQSpec.VTermsInTree | src/main/java/com/github/coderodde/util/SemiDynamicRMQTree.java:130-131 | every `V'` subtree has keys above the left key and every `V''` subtree keys below the right key; for distinct keys all lie strictly inside the range |
| RMQSpec.QueryPaths | src/main/java/com/github/coderodde/util/SemiDynamicRMQTree.java:123-131 | the paths `getPath` returns are internal-only, and the code's `V'` and `V''` lists are the roots of `VPrime` and `VDoublePrime` |
| RMQSpec.AsWrittenFromParts | src/main/java/com/github/coderodde/util/SemiDynamicRMQTree.java:133-147 | the null substitutions and the three `min` calls give the minimum of the endpoint values and all `V'`/`V''` values |
| RMQSpec.QueryTermTree | src/main/java/com/github/coderodde/util/SemiDynamicRMQTree.java:130-134 | each non-endpoint term is the root value of a subtree of the tree, strictly inside the range for distinct keys |
| RMQSpec.AsWrittenIsLeafValue | src/main/java/com/github/coderodde/util/SemiDynamicRMQTree.java:130-147 | the query result is at most both endpoint values and equals some leaf's value, inside the range whenever the keys differ |
| RMQSpec.FourKeyTreeFacts | src/test/java/com/github/coderodde/util/SemiDynamicRMQTreeTest.java:22-45 | the four-key test tree is well formed, leaves 1..4 sit at ids 0, 1, 3, 4, and both the built and the updated values are min-consistent |
| RMQSpec.UpdateThreeToZero | src/main/java/com/github/coderodde/util/SemiDynamicRMQTree.java:78-85 | `update(3, 0)` on that tree lowers leaf 3, its parent and the root to 0 |
| RMQSpec.UpdatedRangeCounterexample | src/main/java/com/github/coderodde/util/SemiDynamicRMQTree.java:218-219 | after `update(3, 0)`, leaf 3 in the range 2..4 holds 0, yet the query as written yields 2 |
| RMQSpec.SingleKeyCounterexample | src/main/java/com/github/coderodde/util/SemiDynamicRMQTree.java:240-245 | leaf 4 holds 4, yet the single-key query (4, 4) as written yields 1 |
| RMQTree.SemiDynamicRMQTree.constructor | src/main/java/com/github/coderodde/util/SemiDynamicRMQTree.java:41-47 | from a builder result the tree is valid, each sorted pair's key maps to a leaf holding its value, no other key is present, and the height is at most ⌈log2 n⌉ |
| RMQTree.SemiDynamicRMQTree.Create | src/main/java/com/github/coderodde/util/SemiDynamicRMQTree.java:41-47 | fails exactly on an empty set; otherwise the keys are exactly the set's keys, each holding its pair's value, over the tree built from the sorted pairs |
| RMQTree.SemiDynamicRMQTree.GetRoot | src/main/java/com/github/coderodde/util/SemiDynamicRMQTree.java:55-57 | the root has no parent and holds the least leaf value |
| RMQTree.SemiDynamicRMQTree.Update | src/main/java/com/github/coderodde/util/SemiDynamicRMQTree.java:78-85 | for a key in the map every node on its leaf-to-root path becomes `min(old, v)` and no other node changes; for an absent key nothing changes; links never change; the tree stays valid |
| RMQTree.SemiDynamicRMQTree.GetRangeMinimum | src/main/java/com/github/coderodde/util/SemiDynamicRMQTree.java:95-148 | a missing left key, then a missing right key, then a descending range are reported in that order; otherwise the result is `AsWrittenMinimum`, at most both endpoint values and, for distinct keys, some leaf value inside the range; nothing is modified |
| RMQTree.SemiDynamicRMQTree.ComputeMinimum | src/main/java/com/github/coderodde/util/SemiDynamicRMQTree.java:157-173 | no value for an empty list; otherwise a value held by a listed node and at most every listed node's value |
| RMQTree.SemiDynamicRMQTree.ComputeLeftPathV | src/main/java/com/github/coderodde/util/SemiDynamicRMQTree.java:181-198 | the list is `LeftPathV`: the right child of each path node whose left child is on the path |
| RMQTree.SemiDynamicRMQTree.ComputeRightPartV | src/main/java/com/github/coderodde/util/SemiDynamicRMQTree.java:206-224 | the list is `RightPathV`: the left child of each path node whose right child is on the path |
| RMQTree.SemiDynamicRMQTree.GetPath | src/main/java/com/github/coderodde/util/SemiDynamicRMQTree.java:234-248 | the ancestors of the leaf bottom-up, stopping before the split node, or all ancestors when the split node is not among them |
| RMQTree.SemiDynamicRMQTree.ComputeSplitNode | src/main/java/com/github/coderodde/util/SemiDynamicRMQTree.java:258-282 | the root of the split subtree of the two keys (the lowest common ancestor; the leaf itself for one key) |
| Scenarios.FourPairsSorted | src/test/java/com/github/coderodde/util/SemiDynamicRMQTreeTest.java:12-17 | the test's four-pair set has distinct keys and sorts to (1,1), (2,2), (3,3), (4,4) |
| Scenarios.ThreePairsSorted | src/test/java/com/github/coderodde/util/SemiDynamicRMQTreeTest.java:71-75 | the test's three-pair set has distinct keys and sorts to (1,1), (2,2), (3,3) |
| Scenarios.FourPairsBuilt | src/test/java/com/github/coderodde/util/SemiDynamicRMQTreeTest.java:22-45 | four pairs build two internal nodes over leaves {1, 2} and {3, 4}; root 1, middle nodes 1 and 3, leaves 1..4 |
| Scenarios.ThreePairsBuilt | src/test/java/com/github/coderodde/util/SemiDynamicRMQTreeTest.java:80-96 | three pairs build leaf 1 on the left and an internal node over {2, 3} on the right; root 1, middle node 2 |
| Scenarios.FourKeyLinks | src/test/java/com/github/coderodde/util/SemiDynamicRMQTreeTest.java:22-34 | the root's children are the two middle nodes, whose children are the leaves in key order |
| Scenarios.ThreeKeyLinks | src/test/java/com/github/coderodde/util/SemiDynamicRMQTreeTest.java:80-92 | the root's children are leaf 1 and the middle node, whose children are leaves 2 and 3 |
| Scenarios.FourKeyQueriesInHalves | src/test/java/com/github/coderodde/util/SemiDynamicRMQTreeTest.java:47-53 | the queries (1, 2) and (3, 4) yield 1 and 3 |
| Scenarios.FourKeyQueriesAcross | src/test/java/com/github/coderodde/util/SemiDynamicRMQTreeTest.java:55-61 | the queries (2, 4) and (1, 4) yield 2 and 1 |
| Scenarios.FourKeyUpdate | src/test/java/com/github/coderodde/util/SemiDynamicRMQTreeTest.java:62-66 | `update(4, -1)` sets leaf 4, its parent and the root to -1 and leaves the rest |
| Scenarios.FourKeyBuildTest | src/test/java/com/github/coderodde/util/SemiDynamicRMQTreeTest.java:19-45 | through `Create`, `GetRoot` and the child getters: the root and left middle node hold 1, the right middle node 3, and the leaves 1, 2, 3, 4 in key order |
| Scenarios.FourKeyQueryTest | src/test/java/com/github/coderodde/util/SemiDynamicRMQTreeTest.java:47-61 | through `GetRangeMinimum`: the queries (1, 2), (3, 4), (2, 4) and (1, 4) succeed with 1, 3, 2 and 1 |
| Scenarios.FourKeyUpdateTest | src/test/java/com/github/coderodde/util/SemiDynamicRMQTreeTest.java:62-66 | through `Update(4, -1)`: leaf 4, its parent and the root then hold -1 |
| Scenarios.ThreeKeyTest | src/test/java/com/github/coderodde/util/SemiDynamicRMQTreeTest.java:77-96 | through `Create`, `GetRoot` and the child getters: the root holds 1, its right child 2, and the leaves 1, 2, 3 in key order |
| Scenarios.CounterexampleScenarios | src/main/java/com/github/coderodde/util/SemiDynamicRMQTree.java:95-148 | through the class's own methods: `GetRangeMinimum(4, 4)` succeeds with 1 although leaf 4 holds 4; after `Update(3, 0)` the values are 1, 2, 1, 0, 4, 0, 0 and `GetRangeMinimum(2, 4)` succeeds with 2 although leaf 3 holds 0 |
| Scenarios.ErrorScenarios | src/main/java/com/github/coderodde/util/SemiDynamicRMQTree.java:97-121 | `Create` on the empty set fails with `EmptyInput` (SemiDynamicRMQTreeBuilder.java:37-40); on the four-key tree a missing left key, a missing right key and a descending range fail with those errors; `Update` on an absent key leaves every value unchanged |
| Scenarios.BuildFour | src/test/java/com/github/coderodde/util/SemiDynamicRMQTreeTest.java:12-20 | constructing from the four-pair set gives the four-key tree with values 1, 2, 1, 3, 4, 3, 1 |
| Scenarios.BuildThree | src/test/java/com/github/coderodde/util/SemiDynamicRMQTreeTest.java:71-78 | constructing from the three-pair set gives the three-key tree with values 1, 2, 3, 2, 1 |

## Left out

- RMQTree.SemiDynamicRMQTree.GetRangeMinimum: does not promise the minimum over the range that the doc comment at SemiDynamicRMQTree.java:87-94 claims, because the code does not deliver it. It is proved equal to the as-written combination, at most both endpoint values, and, for two distinct keys, the value of some leaf inside the range (so never below the true minimum); for one key it can fall below it. `RMQSpec.UpdatedRangeCounterexample` and `RMQSpec.SingleKeyCounterexample` exhibit one input for each of the two defects.
- TreeBuilder.BuildRMQTree: requires distinct keys. A set can hold two pairs with the same key (`KeyValuePair` has no `equals`), and the result then depends on `HashSet` iteration order. `KeyValuePair` is a datatype here, so two pairs with equal key and value are one element, where Java would keep two objects.
- TreeBuilder.LoadLeafMap: its leaves are allocated in a scratch arena of their own, and `BuildRMQTree` drops both the arena and the map, as the Java code drops its map. The order in which the set is iterated is arbitrary (`:|`), so the contract speaks only of the final map.
- Pairs.Sort: `Collections.sort` is modelled by insertion into a sorted sequence. Only its result (sorted, same elements) is modelled, not the merge-sort algorithm or its stability, which cannot matter for distinct keys.
- Nodes.NodeArena.GetValue, GetParent, GetLeftChild and GetRightChild are reads of the arena fields with no contract of their own. "A getter returns the last value set" follows from the setters' contracts.
- A `null` input set, null keys or values, and the order of the null check after `loadLeafMap` are not modelled.
- Generic `Comparable` keys and values are represented by `int`, a total order. `compareTo` on keys that is inconsistent with `equals` is not modelled, and neither is the hashing of `HashMap` and `HashSet`, which are modelled as Dafny `map` and `set`.
- `List.subList` views are modelled as copies (sequence slices). The code never writes through them.
- The `IllegalStateException` at the end of `computeSplitNode` is proved unreachable for two leaves of one tree and is an `assert false` branch.
- `toString`, `toStringImpl`, the node and pair `toString` methods, and the interactive demo `SemiDynamicRMQTreeDemo` (console input, printing, timing) are not modelled.
- The running-time claims (O(log n) per operation, O(n log n) construction) are not modelled beyond the height bound ⌈log2 n⌉ and the path-length bound height + 1.
- `RMQTreeBuilderResult` is a datatype holding the arena, the root and the map; its setters and getters are field accesses.

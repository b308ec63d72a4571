/** Building the static tree over the sorted pairs (SemiDynamicRMQTreeBuilder.java). */
module TreeBuilder {
  import opened Results
  import opened Utils
  import opened Pairs
  import opened Nodes
  import opened TreeShape

  /** The IllegalArgumentException raised for an empty input set. */
  datatype BuildError = EmptyInput

  /** `RMQTreeBuilderResult`: the root and the key-to-leaf map, together with the arena holding the nodes. */
  datatype BuilderResult = BuilderResult(nodes: NodeArena, root: int, leafMap: map<int, int>)

  function Pow2(h: nat): (p: nat)
    ensures p >= 1
  {
    if h == 0 then 1 else 2 * Pow2(h - 1)
  }

  /** The least `h` with `n <= 2^h`. */
  function CeilLog2(n: nat): (h: nat)
    requires n >= 1
    ensures n <= Pow2(h)
    ensures h == 0 || Pow2(h - 1) < n
  {
    if n == 1 then 0 else 1 + CeilLog2((n + 1) / 2)
  }

  /**
   * The tree `buildRMQTreeImpl` creates for `kvs` when the arena already holds `base` nodes:
   * a sublist of size s is split into [0, s/2) and [s/2, s); nodes are created left subtree
   * first, then right subtree, then the internal node, so indices run from `base` upwards and
   * the local root is the last one.
   */
  ghost function BuildShape(kvs: seq<KeyValuePair>, base: int): (t: Tree)
    requires |kvs| >= 1
    ensures t.id == base + 2 * |kvs| - 2
    decreases |kvs|
  {
    if |kvs| == 1 then Leaf(base, kvs[0].key)
    else
      var mid := |kvs| / 2;
      Node(base + 2 * |kvs| - 2, BuildShape(kvs[..mid], base), BuildShape(kvs[mid..], base + 2 * mid - 1))
  }

  /** The tree uses the arena indices from `base` to its root, each by one node only. */
  lemma {:induction false} BuildShapeIds(kvs: seq<KeyValuePair>, base: int)
    requires |kvs| >= 1
    ensures forall i :: i in Ids(BuildShape(kvs, base)) ==> base <= i <= base + 2 * |kvs| - 2
    ensures Unique(BuildShape(kvs, base))
    decreases |kvs|
  {
    if |kvs| > 1 {
      var mid := |kvs| / 2;
      var l := BuildShape(kvs[..mid], base);
      var r := BuildShape(kvs[mid..], base + 2 * mid - 1);
      BuildShapeIds(kvs[..mid], base);
      BuildShapeIds(kvs[mid..], base + 2 * mid - 1);
      assert BuildShape(kvs, base) == Node(base + 2 * |kvs| - 2, l, r);
      assert Ids(l) !! Ids(r) by {
        forall i | i in Ids(l) ensures i !in Ids(r) {
          assert i <= base + 2 * mid - 2;
        }
      }
    }
  }

  /** The j-th leaf of `t`, left to right, carries the key of the j-th pair. */
  ghost predicate LeafKeys(t: Tree, kvs: seq<KeyValuePair>)
  {
    && |LeafSeq(t)| == |kvs|
    && forall j :: 0 <= j < |kvs| ==> LeafSeq(t)[j].key == kvs[j].key
  }

  /** The leaves, left to right, carry the keys of `kvs` in order. */
  lemma {:induction false} BuildShapeLeaves(kvs: seq<KeyValuePair>, base: int)
    requires |kvs| >= 1
    ensures LeafKeys(BuildShape(kvs, base), kvs)
    decreases |kvs|
  {
    if |kvs| > 1 {
      var mid := |kvs| / 2;
      BuildShapeLeaves(kvs[..mid], base);
      BuildShapeLeaves(kvs[mid..], base + 2 * mid - 1);
      LeafKeysJoin(BuildShape(kvs, base), kvs, mid);
    }
  }

  /** The leaf keys of a node are those of its left child followed by those of its right child. */
  lemma LeafKeysJoin(t: Tree, kvs: seq<KeyValuePair>, mid: int)
    requires t.Node? && 0 <= mid <= |kvs|
    requires LeafKeys(t.left, kvs[..mid]) && LeafKeys(t.right, kvs[mid..])
    ensures LeafKeys(t, kvs)
  {
    var s := LeafSeq(t);
    assert s == LeafSeq(t.left) + LeafSeq(t.right);
    forall j | 0 <= j < |kvs| ensures s[j].key == kvs[j].key {
      if j < mid {
        assert s[j] == LeafSeq(t.left)[j] && kvs[j] == kvs[..mid][j];
      } else {
        assert s[j] == LeafSeq(t.right)[j - mid] && kvs[j] == kvs[mid..][j - mid];
      }
    }
  }

  /** The tree holds the keys of the list, and no others. */
  lemma {:induction false} BuildShapeKeys(kvs: seq<KeyValuePair>, base: int)
    requires |kvs| >= 1
    ensures forall j :: 0 <= j < |kvs| ==> kvs[j].key in Keys(BuildShape(kvs, base))
    ensures forall x :: x in Keys(BuildShape(kvs, base)) ==> exists j :: 0 <= j < |kvs| && kvs[j].key == x
    decreases |kvs|
  {
    if |kvs| > 1 {
      var mid := |kvs| / 2;
      var lkvs, rkvs := kvs[..mid], kvs[mid..];
      var l := BuildShape(lkvs, base);
      var r := BuildShape(rkvs, base + 2 * mid - 1);
      BuildShapeKeys(lkvs, base);
      BuildShapeKeys(rkvs, base + 2 * mid - 1);
      assert Keys(BuildShape(kvs, base)) == Keys(l) + Keys(r);
      forall j | 0 <= j < |kvs| ensures kvs[j].key in Keys(l) + Keys(r) {
        if j < mid {
          assert kvs[j] == lkvs[j];
        } else {
          assert kvs[j] == rkvs[j - mid];
        }
      }
      forall x | x in Keys(l) + Keys(r) ensures exists j :: 0 <= j < |kvs| && kvs[j].key == x {
        if x in Keys(l) {
          var j :| 0 <= j < |lkvs| && lkvs[j].key == x;
          assert kvs[j] == lkvs[j];
        } else {
          var j :| 0 <= j < |rkvs| && rkvs[j].key == x;
          assert kvs[mid + j] == rkvs[j];
        }
      }
    }
  }

  /** With sorted pairs, every key of the tree lies between the first and the last key of the list. */
  lemma {:induction false} BuildShapeKeyBounds(kvs: seq<KeyValuePair>, base: int)
    requires |kvs| >= 1 && SortedByKey(kvs)
    ensures forall x :: x in Keys(BuildShape(kvs, base)) ==> kvs[0].key <= x <= kvs[|kvs| - 1].key
  {
    BuildShapeKeys(kvs, base);
    forall x | x in Keys(BuildShape(kvs, base)) ensures kvs[0].key <= x <= kvs[|kvs| - 1].key {
      var j :| 0 <= j < |kvs| && kvs[j].key == x;
      assert j == 0 || kvs[0].key < kvs[j].key;
      assert j == |kvs| - 1 || kvs[j].key < kvs[|kvs| - 1].key;
    }
  }

  /** A slice of a sorted list is sorted. */
  lemma SortedSlice(kvs: seq<KeyValuePair>, lo: int, hi: int)
    requires 0 <= lo <= hi <= |kvs| && SortedByKey(kvs)
    ensures SortedByKey(kvs[lo..hi])
  {
    forall i, j | 0 <= i < j < hi - lo ensures kvs[lo..hi][i].key < kvs[lo..hi][j].key {
      assert kvs[lo..hi][i] == kvs[lo + i] && kvs[lo..hi][j] == kvs[lo + j];
    }
  }

  /** Sorted pairs give a tree whose left keys are below its right keys at every node. */
  lemma {:induction false} BuildShapeOrdered(kvs: seq<KeyValuePair>, base: int)
    requires |kvs| >= 1 && SortedByKey(kvs)
    ensures Ordered(BuildShape(kvs, base))
    decreases |kvs|
  {
    if |kvs| > 1 {
      var mid := |kvs| / 2;
      var lkvs, rkvs := kvs[..mid], kvs[mid..];
      SortedSlice(kvs, 0, mid);
      SortedSlice(kvs, mid, |kvs|);
      assert kvs[0..mid] == lkvs && kvs[mid..|kvs|] == rkvs;
      BuildShapeOrdered(lkvs, base);
      BuildShapeOrdered(rkvs, base + 2 * mid - 1);
      BuildShapeKeyBounds(lkvs, base);
      BuildShapeKeyBounds(rkvs, base + 2 * mid - 1);
      assert lkvs[mid - 1] == kvs[mid - 1] && rkvs[0] == kvs[mid];
      assert kvs[mid - 1].key < kvs[mid].key;
    }
  }

  /** Both halves of n > 1 items fit in 2^(h-1) when n fits in 2^h. */
  lemma HalvesFit(n: int, h: nat)
    requires 1 < n <= Pow2(h)
    ensures h >= 1 && n / 2 <= Pow2(h - 1) && n - n / 2 <= Pow2(h - 1)
  {
    assert h >= 1;
    assert Pow2(h) == 2 * Pow2(h - 1);
  }

  /** Splitting by position keeps the tree balanced: at most h levels below the root when n <= 2^h. */
  lemma {:induction false} BuildShapeHeight(kvs: seq<KeyValuePair>, base: int, h: nat)
    requires |kvs| >= 1 && |kvs| <= Pow2(h)
    ensures Height(BuildShape(kvs, base)) <= h
    decreases |kvs|
  {
    if |kvs| > 1 {
      var mid := |kvs| / 2;
      HalvesFit(|kvs|, h);
      BuildShapeHeight(kvs[..mid], base, h - 1);
      BuildShapeHeight(kvs[mid..], base + 2 * mid - 1, h - 1);
      NodeHeight(BuildShape(kvs, base), h);
    }
  }

  /** A node is at most h high when both its children are at most h - 1 high. */
  lemma NodeHeight(t: Tree, h: nat)
    requires t.Node? && h >= 1 && Height(t.left) <= h - 1 && Height(t.right) <= h - 1
    ensures Height(t) <= h
  {
  }

  /** The leaf map of the built tree sends the key at position j to the j-th leaf. */
  lemma {:induction false} LeafMapOfLeafSeq(t: Tree)
    requires Ordered(t)
    ensures forall j :: 0 <= j < |LeafSeq(t)| ==> LeafMapOf(t)[LeafSeq(t)[j].key] == LeafSeq(t)[j].id
  {
    match t
    case Leaf(_, _) =>
    case Node(_, l, r) =>
      LeafMapOfLeafSeq(l);
      LeafMapOfLeafSeq(r);
      forall j | 0 <= j < |LeafSeq(t)| ensures LeafMapOf(t)[LeafSeq(t)[j].key] == LeafSeq(t)[j].id {
        if j < |LeafSeq(l)| {
          assert LeafSeq(t)[j] == LeafSeq(l)[j];
          assert LeafSeq(l)[j].key !in Keys(r);
        } else {
          assert LeafSeq(t)[j] == LeafSeq(r)[j - |LeafSeq(l)|];
        }
      }
  }

  /** The j-th leaf of `t`, left to right, holds the value of the j-th pair. */
  ghost predicate LeafValues(t: Tree, kvs: seq<KeyValuePair>, values: seq<int>)
  {
    && |LeafSeq(t)| == |kvs|
    && forall j :: 0 <= j < |kvs| ==> 0 <= LeafSeq(t)[j].id < |values| && values[LeafSeq(t)[j].id] == kvs[j].value
  }

  /** Joining two subtrees leaves the arena before `base` as it was before either was built. */
  lemma JoinPrefix(base: int, l: int, r: int,
                   values1: seq<int>, parents1: seq<int>, kinds1: seq<NodeKind>,
                   values2: seq<int>, parents2: seq<int>, kinds2: seq<NodeKind>,
                   values: seq<int>, parents: seq<int>, kinds: seq<NodeKind>)
    requires 0 <= base <= |values1| == |parents1| == |kinds1| <= |values2| == |parents2| == |kinds2|
    requires values2[..|values1|] == values1 && parents2[..|values1|] == parents1 && kinds2[..|values1|] == kinds1
    requires base <= l < |values2| && base <= r < |values2|
    requires values == values2 + [Min(values2[l], values2[r])]
    requires parents == (parents2 + [NoNode])[l := |values2|][r := |values2|]
    requires kinds == kinds2 + [InternalNode(l, r)]
    ensures values[..base] == values1[..base] && parents[..base] == parents1[..base] && kinds[..base] == kinds1[..base]
  {
    forall i | 0 <= i < base
      ensures values[i] == values1[i] && parents[i] == parents1[i] && kinds[i] == kinds1[i]
    {
      assert values2[..|values1|][i] == values2[i];
      assert parents2[..|values1|][i] == parents2[i];
      assert kinds2[..|values1|][i] == kinds2[i];
    }
  }

  /** Map union is associative. */
  lemma MapUnionAssociative(a: map<int, int>, b: map<int, int>, c: map<int, int>)
    ensures a + b + c == a + (b + c)
  {
    assert (a + b + c).Keys == (a + (b + c)).Keys;
    forall k | k in a + b + c ensures (a + b + c)[k] == (a + (b + c))[k] {
    }
  }

  /** A prefix of each list of values is kept, so leaf values recorded earlier still hold. */
  lemma LeafValuesJoin(t: Tree, kvs: seq<KeyValuePair>, mid: int, values1: seq<int>, values2: seq<int>, values: seq<int>)
    requires t.Node? && 0 <= mid <= |kvs|
    requires |values1| <= |values2| <= |values|
    requires values2[..|values1|] == values1 && values[..|values2|] == values2
    requires LeafValues(t.left, kvs[..mid], values1) && LeafValues(t.right, kvs[mid..], values2)
    ensures LeafValues(t, kvs, values)
  {
    var s := LeafSeq(t);
    assert s == LeafSeq(t.left) + LeafSeq(t.right);
    forall j | 0 <= j < |kvs| ensures 0 <= s[j].id < |values| && values[s[j].id] == kvs[j].value {
      if j < mid {
        assert s[j] == LeafSeq(t.left)[j] && kvs[j] == kvs[..mid][j];
        assert values[s[j].id] == values2[s[j].id] == values1[s[j].id];
      } else {
        assert s[j] == LeafSeq(t.right)[j - mid] && kvs[j] == kvs[mid..][j - mid];
        assert values[s[j].id] == values2[s[j].id];
      }
    }
  }

  /**
   * Joining two built subtrees under a new internal node at the end of the arena: the child
   * links, the parent links of the two subtree roots and the minimum of the two child values
   * give the links and the min invariant of the whole tree.
   */
  lemma JoinSubtrees(t: Tree, values1: seq<int>, parents1: seq<int>, kinds1: seq<NodeKind>,
                     values2: seq<int>, parents2: seq<int>, kinds2: seq<NodeKind>,
                     values: seq<int>, parents: seq<int>, kinds: seq<NodeKind>)
    requires t.Node? && Unique(t)
    requires |values1| == |parents1| == |kinds1| <= |values2| == |parents2| == |kinds2| == t.id
    requires forall i :: i in Ids(t.left) ==> 0 <= i < |values1|
    requires forall i :: i in Ids(t.right) ==> |values1| <= i < |values2|
    requires 0 <= t.left.id < |values1| <= t.right.id < |values2|
    requires values2[..|values1|] == values1 && parents2[..|values1|] == parents1 && kinds2[..|values1|] == kinds1
    requires Linked(t.left, parents1, kinds1) && MinConsistent(t.left, values1)
    requires Linked(t.right, parents2, kinds2) && MinConsistent(t.right, values2)
    requires values == values2 + [Min(values2[t.left.id], values2[t.right.id])]
    requires parents == (parents2 + [NoNode])[t.left.id := t.id][t.right.id := t.id]
    requires kinds == kinds2 + [InternalNode(t.left.id, t.right.id)]
    ensures Linked(t, parents, kinds) && MinConsistent(t, values)
  {
    forall i | i in Ids(t.left) ensures values2[i] == values1[i] && parents2[i] == parents1[i] && kinds2[i] == kinds1[i] {
      assert values2[..|values1|][i] == values2[i];
      assert parents2[..|values1|][i] == parents2[i];
      assert kinds2[..|values1|][i] == kinds2[i];
    }
    LinkedFrame(t.left, parents1, kinds1, parents, kinds);
    LinkedFrame(t.right, parents2, kinds2, parents, kinds);
    MinFrame(t.left, values1, values);
    MinFrame(t.right, values2, values);
  }

  /**
   * The arena from index `base` on holds the tree built for `kvs`, with no parent for its root,
   * the child and parent links, the min invariant and the pairs' values at the leaves.
   */
  ghost predicate Built(kvs: seq<KeyValuePair>, base: int, values: seq<int>, parents: seq<int>, kinds: seq<NodeKind>)
  {
    && |kvs| >= 1
    && |values| == |parents| == |kinds| == base + 2 * |kvs| - 1
    && var t := BuildShape(kvs, base);
       && Linked(t, parents, kinds)
       && parents[t.id] == NoNode
       && MinConsistent(t, values)
       && LeafValues(t, kvs, values)
  }

  /**
   * Joining the two halves under a new internal node at the end of the arena: the child links,
   * the parent links of the two subtree roots and the minimum of the two child values give the
   * links and the min invariant of the whole tree.
   */
  lemma JoinBuilt(kvs: seq<KeyValuePair>, base: int, mid: int, base2: int, l: int, r: int,
                  values1: seq<int>, parents1: seq<int>, kinds1: seq<NodeKind>,
                  values2: seq<int>, parents2: seq<int>, kinds2: seq<NodeKind>,
                  values: seq<int>, parents: seq<int>, kinds: seq<NodeKind>)
    requires |kvs| >= 2 && mid == |kvs| / 2 && base >= 0 && base2 == |values1|
    requires Built(kvs[..mid], base, values1, parents1, kinds1)
    requires Built(kvs[mid..], base2, values2, parents2, kinds2)
    requires values2[..|values1|] == values1 && parents2[..|values1|] == parents1 && kinds2[..|values1|] == kinds1
    requires l == BuildShape(kvs[..mid], base).id && r == BuildShape(kvs[mid..], base2).id
    requires values == values2 + [Min(values2[l], values2[r])]
    requires parents == (parents2 + [NoNode])[l := |values2|][r := |values2|]
    requires kinds == kinds2 + [InternalNode(l, r)]
    ensures Built(kvs, base, values, parents, kinds)
    ensures BuildShape(kvs, base) == Node(|values2|, BuildShape(kvs[..mid], base), BuildShape(kvs[mid..], base2))
  {
    var lkvs, rkvs := kvs[..mid], kvs[mid..];
    var t := BuildShape(kvs, base);
    var lt := BuildShape(lkvs, base);
    var rt := BuildShape(rkvs, base2);
    assert t == Node(base + 2 * |kvs| - 2, lt, rt);
    BuildShapeIds(kvs, base);
    BuildShapeIds(lkvs, base);
    BuildShapeIds(rkvs, base2);
    JoinSubtrees(t, values1, parents1, kinds1, values2, parents2, kinds2, values, parents, kinds);
    assert values[..|values2|] == values2;
    LeafValuesJoin(t, kvs, mid, values1, values2, values);
  }

  /**
   * Creates the internal node over two subtree roots: links it to both children and both children
   * to it, and stores the smaller child value.
   */
  method LinkUnderNewRoot(nodes: NodeArena, leftSubTreeRoot: int, rightSubTreeRoot: int) returns (localRoot: int)
    requires nodes.Valid() && 0 <= leftSubTreeRoot < |nodes.values| && 0 <= rightSubTreeRoot < |nodes.values|
    modifies nodes
    ensures nodes.Valid()
    ensures localRoot == old(|nodes.values|)
    ensures nodes.values == old(nodes.values) + [Min(old(nodes.values[leftSubTreeRoot]), old(nodes.values[rightSubTreeRoot]))]
    ensures nodes.parents == (old(nodes.parents) + [NoNode])[leftSubTreeRoot := localRoot][rightSubTreeRoot := localRoot]
    ensures nodes.kinds == old(nodes.kinds) + [InternalNode(leftSubTreeRoot, rightSubTreeRoot)]
  {
    localRoot := nodes.NewInternal();
    nodes.SetLeftChild(localRoot, leftSubTreeRoot);
    nodes.SetRightChild(localRoot, rightSubTreeRoot);
    nodes.SetParent(leftSubTreeRoot, localRoot);
    nodes.SetParent(rightSubTreeRoot, localRoot);
    nodes.SetValue(localRoot, Min(nodes.GetValue(leftSubTreeRoot), nodes.GetValue(rightSubTreeRoot)));
  }

  /**
   * `buildRMQTreeImpl`: builds the subtree for `keyValuePairs` in the arena, registers each leaf
   * under its key and returns the local root, which has no parent yet.  Nodes already in the
   * arena are left as they were.
   */
  method BuildRMQTreeImpl(nodes: NodeArena, keyValuePairs: seq<KeyValuePair>, mapKeyToLeafNodes: map<int, int>)
      returns (localRoot: int, leafMap: map<int, int>)
    requires nodes.Valid() && |keyValuePairs| >= 1
    modifies nodes
    ensures nodes.Valid()
    ensures Built(keyValuePairs, old(|nodes.values|), nodes.values, nodes.parents, nodes.kinds)
    ensures nodes.values[..old(|nodes.values|)] == old(nodes.values)
    ensures nodes.parents[..old(|nodes.values|)] == old(nodes.parents)
    ensures nodes.kinds[..old(|nodes.values|)] == old(nodes.kinds)
    ensures localRoot == BuildShape(keyValuePairs, old(|nodes.values|)).id
    ensures leafMap == mapKeyToLeafNodes + LeafMapOf(BuildShape(keyValuePairs, old(|nodes.values|)))
    decreases |keyValuePairs|
  {
    if |keyValuePairs| == 1 {
      var keyValuePair := keyValuePairs[0];
      var leaf := nodes.NewLeaf();
      nodes.SetValue(leaf, keyValuePair.value);
      leafMap := mapKeyToLeafNodes[keyValuePair.key := leaf];
      localRoot := leaf;
      assert LeafSeq(BuildShape(keyValuePairs, leaf)) == [Leaf(leaf, keyValuePair.key)];
      return;
    }
    ghost var base := |nodes.values|;
    var middleIndex := |keyValuePairs| / 2;
    var leftSubTreeRoot, leafMap1 := BuildRMQTreeImpl(nodes, keyValuePairs[..middleIndex], mapKeyToLeafNodes);
    ghost var values1, parents1, kinds1 := nodes.values, nodes.parents, nodes.kinds;
    var rightSubTreeRoot, leafMap2 := BuildRMQTreeImpl(nodes, keyValuePairs[middleIndex..], leafMap1);
    ghost var values2, parents2, kinds2 := nodes.values, nodes.parents, nodes.kinds;

    localRoot := LinkUnderNewRoot(nodes, leftSubTreeRoot, rightSubTreeRoot);
    leafMap := leafMap2;

    JoinBuilt(keyValuePairs, base, middleIndex, |values1|, leftSubTreeRoot, rightSubTreeRoot,
              values1, parents1, kinds1, values2, parents2, kinds2,
              nodes.values, nodes.parents, nodes.kinds);
    MapUnionAssociative(mapKeyToLeafNodes, LeafMapOf(BuildShape(keyValuePairs[..middleIndex], base)),
                        LeafMapOf(BuildShape(keyValuePairs[middleIndex..], |values1|)));
    JoinPrefix(base, leftSubTreeRoot, rightSubTreeRoot, values1, parents1, kinds1, values2, parents2, kinds2,
               nodes.values, nodes.parents, nodes.kinds);
  }

  /** The pair `p` is mapped to a leaf of the arena that holds its value. */
  ghost predicate LeafHolds(p: KeyValuePair, loaded: map<int, int>, values: seq<int>, kinds: seq<NodeKind>)
  {
    && p.key in loaded && 0 <= loaded[p.key] < |values| && loaded[p.key] < |kinds|
    && kinds[loaded[p.key]] == LeafNode && values[loaded[p.key]] == p.value
  }

  /** Each pair of `done` is mapped to a leaf of the arena that holds its value. */
  ghost predicate LeavesHold(done: set<KeyValuePair>, loaded: map<int, int>, values: seq<int>, kinds: seq<NodeKind>)
  {
    forall p {:trigger LeafHolds(p, loaded, values, kinds)} :: p in done ==> LeafHolds(p, loaded, values, kinds)
  }

  /** `loaded` is `leafMap` with the keys `keys` put in. */
  ghost predicate KeysLoaded(keys: set<int>, loaded: map<int, int>, leafMap: map<int, int>)
  {
    && (forall k :: k in loaded <==> k in leafMap || k in keys)
    && forall k :: k in leafMap && k !in keys ==> loaded[k] == leafMap[k]
  }

  /** Loading one more pair into a fresh leaf keeps the leaves of the pairs loaded before. */
  lemma LoadStep(done: set<KeyValuePair>, keys: set<int>, p: KeyValuePair, loaded: map<int, int>,
                 leafMap: map<int, int>, values: seq<int>, kinds: seq<NodeKind>)
    requires LeavesHold(done, loaded, values, kinds) && KeysLoaded(keys, loaded, leafMap)
    requires p !in done && |values| == |kinds|
    requires forall q :: q in done ==> q.key != p.key
    ensures LeavesHold(done + {p}, loaded[p.key := |values|], values + [p.value], kinds + [LeafNode])
    ensures KeysLoaded(keys + {p.key}, loaded[p.key := |values|], leafMap)
  {
    var loaded', values', kinds' := loaded[p.key := |values|], values + [p.value], kinds + [LeafNode];
    forall q | q in done + {p} ensures LeafHolds(q, loaded', values', kinds') {
      if q != p {
        assert LeafHolds(q, loaded, values, kinds);
      }
    }
  }

  /** A pair still to be loaded has a key that no loaded pair has. */
  lemma FreshKey(pairs: set<KeyValuePair>, done: set<KeyValuePair>, remaining: set<KeyValuePair>, p: KeyValuePair)
    requires DistinctKeys(pairs) && done + remaining == pairs && done !! remaining && p in remaining
    ensures p !in done && forall q :: q in done ==> q.key != p.key
  {
  }

  /** Once every pair is loaded, the keys put in are exactly the keys of the set. */
  lemma LoadDone(pairs: set<KeyValuePair>, keys: set<int>, loaded: map<int, int>, leafMap: map<int, int>,
                 values: seq<int>, kinds: seq<NodeKind>)
    requires KeysLoaded(keys, loaded, leafMap) && keys <= KeySet(pairs)
    requires LeavesHold(pairs, loaded, values, kinds)
    ensures KeysLoaded(KeySet(pairs), loaded, leafMap)
  {
    forall k | k in KeySet(pairs) ensures k in loaded {
      var p :| p in pairs && p.key == k;
      assert LeafHolds(p, loaded, values, kinds);
    }
  }

  /** Appending a placeholder and then overwriting it is appending the value itself. */
  lemma SetAppended(s: seq<int>, v: int)
    ensures (s + [0])[|s| := v] == s + [v]
  {
  }

  /** `new LeafRMQTreeNode<>()` followed by `setValue(value)`: a fresh leaf holding `value`. */
  method NewLeafHolding(scratch: NodeArena, value: int) returns (leaf: int)
    requires scratch.Valid()
    modifies scratch
    ensures scratch.Valid() && leaf == old(|scratch.values|)
    ensures scratch.values == old(scratch.values) + [value]
    ensures scratch.parents == old(scratch.parents) + [NoNode]
    ensures scratch.kinds == old(scratch.kinds) + [LeafNode]
  {
    ghost var values0 := scratch.values;
    leaf := scratch.NewLeaf();
    scratch.SetValue(leaf, value);
    SetAppended(values0, value);
  }

  /**
   * `loadLeafMap`: for each pair, a new leaf holding its value is put into the map under its key.
   * The leaves live in the arena `scratch`; the caller discards both.
   */
  method LoadLeafMap(scratch: NodeArena, leafMap: map<int, int>, keyValuePairSet: set<KeyValuePair>)
      returns (loaded: map<int, int>)
    requires scratch.Valid() && DistinctKeys(keyValuePairSet)
    modifies scratch
    ensures scratch.Valid()
    ensures KeysLoaded(KeySet(keyValuePairSet), loaded, leafMap)
    ensures LeavesHold(keyValuePairSet, loaded, scratch.values, scratch.kinds)
  {
    loaded := leafMap;
    var remaining := keyValuePairSet;
    ghost var done: set<KeyValuePair> := {};
    ghost var doneKeys: set<int> := {};
    while remaining != {}
      invariant scratch.Valid()
      invariant done + remaining == keyValuePairSet && done !! remaining
      invariant doneKeys <= KeySet(keyValuePairSet)
      invariant KeysLoaded(doneKeys, loaded, leafMap)
      invariant LeavesHold(done, loaded, scratch.values, scratch.kinds)
      decreases |remaining|
    {
      var keyValuePair :| keyValuePair in remaining;
      FreshKey(keyValuePairSet, done, remaining, keyValuePair);
      LoadStep(done, doneKeys, keyValuePair, loaded, leafMap, scratch.values, scratch.kinds);
      assert keyValuePair.key in KeySet(keyValuePairSet);
      var leaf := NewLeafHolding(scratch, keyValuePair.value);
      loaded := loaded[keyValuePair.key := leaf];
      remaining := remaining - {keyValuePair};
      done := done + {keyValuePair};
      doneKeys := doneKeys + {keyValuePair.key};
    }
    LoadDone(keyValuePairSet, doneKeys, loaded, leafMap, scratch.values, scratch.kinds);
  }

  /**
   * `buildRMQTree`: the leaf map of `loadLeafMap` is built and dropped; an empty set is refused;
   * otherwise the pairs are listed, sorted by key and built into a tree over a fresh arena.
   * `sorted` names the sorted list, which `SortedUnique` shows is fixed by the set.
   */
  method BuildRMQTree(keyValuePairSet: set<KeyValuePair>)
      returns (r: Result<BuilderResult, BuildError>, ghost sorted: seq<KeyValuePair>)
    requires DistinctKeys(keyValuePairSet)
    ensures r.Failure? <==> keyValuePairSet == {}
    ensures r.Failure? ==> r.error == EmptyInput
    ensures r.Success? ==>
              && fresh(r.value.nodes)
              && r.value.nodes.Valid()
              && SortedByKey(sorted)
              && multiset(sorted) == multiset(keyValuePairSet)
              && Built(sorted, 0, r.value.nodes.values, r.value.nodes.parents, r.value.nodes.kinds)
              && r.value.root == BuildShape(sorted, 0).id
              && r.value.leafMap == LeafMapOf(BuildShape(sorted, 0))
  {
    var scratch := new NodeArena();
    var leafMap := LoadLeafMap(scratch, map[], keyValuePairSet);
    sorted := [];
    if keyValuePairSet == {} {
      return Failure(EmptyInput), sorted;
    }
    var keyValuePairList := ToList(keyValuePairSet);
    keyValuePairList := Sort(keyValuePairList);
    sorted := keyValuePairList;
    assert |sorted| >= 1 by {
      var p :| p in keyValuePairSet;
      assert p in multiset(sorted);
    }
    var nodes := new NodeArena();
    var root, mapKeyToLeafNode := BuildRMQTreeImpl(nodes, keyValuePairList, map[]);
    assert map[] + LeafMapOf(BuildShape(sorted, 0)) == LeafMapOf(BuildShape(sorted, 0));
    r := Success(BuilderResult(nodes, root, mapKeyToLeafNode));
  }

  /**
   * What the builder produces is a well-formed tree: the sorted pairs make it ordered, the arena
   * links and min invariant hold, the leaf map sends each input key to a leaf holding that key's
   * value, it has exactly the input keys, and it has at most ceil(log2 n) levels below the root.
   */
  lemma BuiltRepresents(kvs: seq<KeyValuePair>, values: seq<int>, parents: seq<int>, kinds: seq<NodeKind>)
    requires SortedByKey(kvs) && Built(kvs, 0, values, parents, kinds)
    ensures var t := BuildShape(kvs, 0);
            && Represents(t, t.id, LeafMapOf(t), values, parents, kinds)
            && (forall j :: 0 <= j < |kvs| ==> kvs[j].key in LeafMapOf(t) && 0 <= LeafMapOf(t)[kvs[j].key] < |values|
                                                 && values[LeafMapOf(t)[kvs[j].key]] == kvs[j].value)
            && (forall x :: x in Keys(t) ==> exists j :: 0 <= j < |kvs| && kvs[j].key == x)
            && Height(t) <= CeilLog2(|kvs|)
  {
    var t := BuildShape(kvs, 0);
    BuildShapeIds(kvs, 0);
    BuildShapeOrdered(kvs, 0);
    BuildShapeKeys(kvs, 0);
    BuildShapeLeaves(kvs, 0);
    LeafMapOfLeafSeq(t);
    BuildShapeHeight(kvs, 0, CeilLog2(|kvs|));
    forall j | 0 <= j < |kvs| ensures kvs[j].key in LeafMapOf(t) && LeafMapOf(t)[kvs[j].key] == LeafSeq(t)[j].id {
      assert LeafSeq(t)[j].key == kvs[j].key;
    }
  }
}

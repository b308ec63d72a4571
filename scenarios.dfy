/**
 * The unit tests of SemiDynamicRMQTreeTest.java and the two query counterexamples, replayed on
 * the model: the trees the builder makes for three and four keys, the values it stores, what the
 * queries answer and what an update changes.
 */
module Scenarios {
  import opened Results
  import opened Utils
  import opened Pairs
  import opened Nodes
  import opened TreeShape
  import opened TreeBuilder
  import opened RMQSpec
  import opened RMQTree

  const FourPairs: seq<KeyValuePair> :=
    [KeyValuePair(1, 1), KeyValuePair(2, 2), KeyValuePair(3, 3), KeyValuePair(4, 4)]

  const ThreePairs: seq<KeyValuePair> := [KeyValuePair(1, 1), KeyValuePair(2, 2), KeyValuePair(3, 3)]

  /** The sets of `passesOnTreeWith4Nodes` and `passesOnTreeWith3Nodes`, in the tests' insertion order. */
  const FourPairSet: set<KeyValuePair> := {KeyValuePair(2, 2), KeyValuePair(4, 4), KeyValuePair(1, 1), KeyValuePair(3, 3)}

  const ThreePairSet: set<KeyValuePair> := {KeyValuePair(2, 2), KeyValuePair(1, 1), KeyValuePair(3, 3)}

  /** Sorting the four-pair set gives `FourPairs`. */
  lemma FourPairsSorted(sorted: seq<KeyValuePair>)
    requires SortedByKey(sorted) && multiset(sorted) == multiset(FourPairSet)
    ensures DistinctKeys(FourPairSet) && sorted == FourPairs
  {
    assert |sorted| == 4 by {
      assert |FourPairSet| == 4;
      assert |multiset(sorted)| == |multiset(FourPairSet)|;
    }
    forall i | 0 <= i < 4 ensures sorted[i] in FourPairSet {
      assert sorted[i] in multiset(sorted);
    }
    assert sorted[0].key < sorted[1].key < sorted[2].key < sorted[3].key;
  }

  /** Sorting the three-pair set gives `ThreePairs`. */
  lemma ThreePairsSorted(sorted: seq<KeyValuePair>)
    requires SortedByKey(sorted) && multiset(sorted) == multiset(ThreePairSet)
    ensures DistinctKeys(ThreePairSet) && sorted == ThreePairs
  {
    assert |sorted| == 3 by {
      assert |ThreePairSet| == 3;
      assert |multiset(sorted)| == |multiset(ThreePairSet)|;
    }
    forall i | 0 <= i < 3 ensures sorted[i] in ThreePairSet {
      assert sorted[i] in multiset(sorted);
    }
    assert sorted[0].key < sorted[1].key < sorted[2].key;
  }

  /** The tree built over three keys: the root has leaf 1 on the left and an internal node over 2 and 3 on the right. */
  ghost const ThreeKeyTree: Tree := Node(4, Leaf(0, 1), Node(3, Leaf(1, 2), Leaf(2, 3)))

  /** For the pairs (1, 1) .. (4, 4) the builder makes `FourKeyTree` and stores `BuiltValues`. */
  lemma FourPairsBuilt(values: seq<int>, parents: seq<int>, kinds: seq<NodeKind>)
    requires Built(FourPairs, 0, values, parents, kinds)
    ensures BuildShape(FourPairs, 0) == FourKeyTree
    ensures values == BuiltValues
  {
    var kvs := FourPairs;
    assert kvs[..2][..1] == [kvs[0]] && kvs[..2][1..] == [kvs[1]];
    assert kvs[2..][..1] == [kvs[2]] && kvs[2..][1..] == [kvs[3]];
    assert BuildShape(kvs[..2], 0) == Node(2, Leaf(0, 1), Leaf(1, 2));
    assert BuildShape(kvs[2..], 3) == Node(5, Leaf(3, 3), Leaf(4, 4));
    var t := FourKeyTree;
    assert LeafSeq(t) == [Leaf(0, 1), Leaf(1, 2), Leaf(3, 3), Leaf(4, 4)];
    assert values[0] == 1 && values[1] == 2 && values[3] == 3 && values[4] == 4;
    assert MinConsistent(t.left, values) && MinConsistent(t.right, values);
    assert values[2] == Min(values[0], values[1]) && values[5] == Min(values[3], values[4]);
    assert values[6] == Min(values[2], values[5]);
    assert |values| == 7;
  }

  /** For the pairs (1, 1) .. (3, 3) the builder makes `ThreeKeyTree` and stores 1, 2, 3, 2, 1. */
  lemma ThreePairsBuilt(values: seq<int>, parents: seq<int>, kinds: seq<NodeKind>)
    requires Built(ThreePairs, 0, values, parents, kinds)
    ensures BuildShape(ThreePairs, 0) == ThreeKeyTree
    ensures values == [1, 2, 3, 2, 1]
  {
    var kvs := ThreePairs;
    assert kvs[..1] == [kvs[0]] && kvs[1..][..1] == [kvs[1]] && kvs[1..][1..] == [kvs[2]];
    assert BuildShape(kvs[1..], 1) == Node(3, Leaf(1, 2), Leaf(2, 3));
    var t := ThreeKeyTree;
    assert LeafSeq(t) == [Leaf(0, 1), Leaf(1, 2), Leaf(2, 3)];
    assert values[0] == 1 && values[1] == 2 && values[2] == 3;
    assert MinConsistent(t.right, values);
    assert values[3] == Min(values[1], values[2]) && values[4] == Min(values[0], values[3]);
    assert |values| == 5;
  }

  /** The child links of `FourKeyTree` in the arena. */
  lemma FourKeyLinks(parents: seq<int>, kinds: seq<NodeKind>)
    requires Linked(FourKeyTree, parents, kinds)
    ensures kinds[6] == InternalNode(2, 5) && kinds[2] == InternalNode(0, 1) && kinds[5] == InternalNode(3, 4)
  {
    assert Linked(FourKeyTree.left, parents, kinds) && Linked(FourKeyTree.right, parents, kinds);
  }

  /** The child links of `ThreeKeyTree` in the arena. */
  lemma ThreeKeyLinks(parents: seq<int>, kinds: seq<NodeKind>)
    requires Linked(ThreeKeyTree, parents, kinds)
    ensures kinds[4] == InternalNode(0, 3) && kinds[3] == InternalNode(1, 2)
  {
    assert Linked(ThreeKeyTree.right, parents, kinds);
  }

  /** The two queries of `passesOnTreeWith4Nodes` inside one half of the tree. */
  lemma FourKeyQueriesInHalves()
    ensures AsWrittenMinimum(FourKeyTree, BuiltValues, 1, 2) == 1
    ensures AsWrittenMinimum(FourKeyTree, BuiltValues, 3, 4) == 3
  {
    FourKeyTreeFacts();
    var t := FourKeyTree;
    assert SplitTree(t, 1, 2) == t.left && SplitTree(t, 3, 4) == t.right;
    assert QueryTerms(t, BuiltValues, 1, 2) == [1, 2];
    assert QueryTerms(t, BuiltValues, 3, 4) == [3, 4];
  }

  /** The two queries of `passesOnTreeWith4Nodes` that split at the root. */
  lemma FourKeyQueriesAcross()
    ensures AsWrittenMinimum(FourKeyTree, BuiltValues, 2, 4) == 2
    ensures AsWrittenMinimum(FourKeyTree, BuiltValues, 1, 4) == 1
  {
    FourKeyTreeFacts();
    var t := FourKeyTree;
    assert SplitTree(t, 2, 4) == t && SplitTree(t, 1, 4) == t;
    assert QueryTerms(t, BuiltValues, 2, 4) == [2, 4];
    assert QueryTerms(t, BuiltValues, 1, 4) == [1, 4];
  }

  /** `update(4, -1)` in `passesOnTreeWith4Nodes` lowers leaf 4, its parent and the root to -1. */
  lemma FourKeyUpdate()
    ensures Relax(BuiltValues, Elements(LeafPath(FourKeyTree, 4)), -1) == [1, 2, 1, 3, -1, -1, -1]
  {
    assert LeafPath(FourKeyTree, 4) == [4, 5, 6];
    assert Elements([4, 5, 6]) == {4, 5, 6};
  }

  /** Builds the tree over the four pairs and pins down its shape and values. */
  method BuildFour() returns (tree: SemiDynamicRMQTree)
    ensures fresh(tree) && fresh(tree.nodes) && tree.Valid()
    ensures tree.shape == FourKeyTree && tree.nodes.values == BuiltValues
  {
    assert DistinctKeys(FourPairSet);
    var r, sorted := SemiDynamicRMQTree.Create(FourPairSet);
    assert KeyValuePair(1, 1) in FourPairSet;
    tree := r.value;
    FourPairsSorted(sorted);
    FourPairsBuilt(tree.nodes.values, tree.nodes.parents, tree.nodes.kinds);
  }

  /** `passesOnTreeWith4Nodes`: the values the builder stores. */
  method FourKeyBuildTest() {
    var tree := BuildFour();
    FourKeyLinks(tree.nodes.parents, tree.nodes.kinds);
    var root := tree.GetRoot();
    assert root == 6 && tree.nodes.values[root] == 1;
    var leftMiddle, rightMiddle := tree.nodes.GetLeftChild(root), tree.nodes.GetRightChild(root);
    assert tree.nodes.values[leftMiddle] == 1 && tree.nodes.values[rightMiddle] == 3;
    var leaf1, leaf2 := tree.nodes.GetLeftChild(leftMiddle), tree.nodes.GetRightChild(leftMiddle);
    var leaf3, leaf4 := tree.nodes.GetLeftChild(rightMiddle), tree.nodes.GetRightChild(rightMiddle);
    assert tree.nodes.values[leaf1] == 1 && tree.nodes.values[leaf2] == 2;
    assert tree.nodes.values[leaf3] == 3 && tree.nodes.values[leaf4] == 4;
  }

  /** `passesOnTreeWith4Nodes`: the four range queries. */
  method FourKeyQueryTest() {
    var tree := BuildFour();
    FourKeyTreeFacts();
    FourKeyQueriesInHalves();
    FourKeyQueriesAcross();
    var m := tree.GetRangeMinimum(1, 2);
    assert m == Success(1);
    m := tree.GetRangeMinimum(3, 4);
    assert m == Success(3);
    m := tree.GetRangeMinimum(2, 4);
    assert m == Success(2);
    m := tree.GetRangeMinimum(1, 4);
    assert m == Success(1);
  }

  /** `passesOnTreeWith4Nodes`: `update(4, -1)` reaches leaf 4, its parent and the root. */
  method FourKeyUpdateTest() {
    var tree := BuildFour();
    FourKeyTreeFacts();
    FourKeyUpdate();
    tree.Update(4, -1);
    assert tree.nodes.values[4] == -1 && tree.nodes.values[5] == -1 && tree.nodes.values[6] == -1;
  }

  /** Builds the tree over the three pairs and pins down its shape and values. */
  method BuildThree() returns (tree: SemiDynamicRMQTree)
    ensures fresh(tree) && fresh(tree.nodes) && tree.Valid()
    ensures tree.shape == ThreeKeyTree && tree.nodes.values == [1, 2, 3, 2, 1]
  {
    assert DistinctKeys(ThreePairSet);
    var r, sorted := SemiDynamicRMQTree.Create(ThreePairSet);
    assert KeyValuePair(1, 1) in ThreePairSet;
    tree := r.value;
    ThreePairsSorted(sorted);
    ThreePairsBuilt(tree.nodes.values, tree.nodes.parents, tree.nodes.kinds);
  }

  /** `passesOnTreeWith3Nodes`. */
  method ThreeKeyTest() {
    var tree := BuildThree();
    ThreeKeyLinks(tree.nodes.parents, tree.nodes.kinds);
    var root := tree.GetRoot();
    assert root == 4 && tree.nodes.values[root] == 1;
    var middle := tree.nodes.GetRightChild(root);
    assert tree.nodes.values[middle] == 2;
    var leaf1, leaf2, leaf3 := tree.nodes.GetLeftChild(root), tree.nodes.GetLeftChild(middle), tree.nodes.GetRightChild(middle);
    assert tree.nodes.values[leaf1] == 1 && tree.nodes.values[leaf2] == 2 && tree.nodes.values[leaf3] == 3;
  }

  /** The two counterexamples, through the tree's own methods. */
  method CounterexampleScenarios() {
    var tree := BuildFour();
    FourKeyTreeFacts();
    SingleKeyCounterexample();
    var m := tree.GetRangeMinimum(4, 4);
    assert m == Success(1) && tree.nodes.values[tree.leafMap[4]] == 4;
    UpdateThreeToZero();
    UpdatedRangeCounterexample();
    tree.Update(3, 0);
    assert tree.nodes.values == UpdatedValues;
    m := tree.GetRangeMinimum(2, 4);
    assert m == Success(2) && tree.nodes.values[tree.leafMap[3]] == 0;
  }

  /** An empty set is refused, and a query for a missing key or a descending range fails. */
  method ErrorScenarios() {
    var r, _ := SemiDynamicRMQTree.Create({});
    assert r == Failure(EmptyInput);
    var tree := BuildFour();
    FourKeyTreeFacts();
    var m := tree.GetRangeMinimum(0, 4);
    assert m == Failure(LeftKeyMissing(0));
    m := tree.GetRangeMinimum(1, 5);
    assert m == Failure(RightKeyMissing(5));
    m := tree.GetRangeMinimum(3, 2);
    assert m == Failure(DescendingRange(3, 2));
    tree.Update(7, 0);
    assert tree.nodes.values == BuiltValues;
  }
}

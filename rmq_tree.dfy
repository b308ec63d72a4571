/**
 * The tree itself (SemiDynamicRMQTree.java): built once from a set of key/value pairs, after
 * which leaf values may be lowered with `Update` and ranges queried with `GetRangeMinimum`.
 */
module RMQTree {
  import opened Results
  import opened Utils
  import opened Pairs
  import opened Nodes
  import opened TreeShape
  import opened TreeBuilder
  import opened RMQSpec

  /** The exceptions `getRangeMinimum` throws before it starts walking the tree. */
  datatype QueryError =
    | LeftKeyMissing(leftKey: int)
    | RightKeyMissing(rightKey: int)
    | DescendingRange(leftKey: int, rightKey: int)

  class SemiDynamicRMQTree {
    const nodes: NodeArena
    const root: int
    const leafMap: map<int, int>

    /** The shape of the tree over the arena: fixed at construction, as the source never relinks nodes. */
    ghost const shape: Tree

    ghost predicate Valid()
      reads this, nodes
    {
      nodes.Valid() && Represents(shape, root, leafMap, nodes.values, nodes.parents, nodes.kinds)
    }

    /** Takes over the root and the leaf map of a builder result, for the keys and values of `sorted`. */
    constructor (result: BuilderResult, ghost sorted: seq<KeyValuePair>)
      requires result.nodes.Valid() && SortedByKey(sorted)
      requires Built(sorted, 0, result.nodes.values, result.nodes.parents, result.nodes.kinds)
      requires result.root == BuildShape(sorted, 0).id && result.leafMap == LeafMapOf(BuildShape(sorted, 0))
      ensures Valid()
      ensures nodes == result.nodes && root == result.root && leafMap == result.leafMap
      ensures shape == BuildShape(sorted, 0) && Height(shape) <= CeilLog2(|sorted|)
      ensures forall j :: 0 <= j < |sorted| ==>
                sorted[j].key in leafMap && 0 <= leafMap[sorted[j].key] < |nodes.values| &&
                nodes.values[leafMap[sorted[j].key]] == sorted[j].value
      ensures forall x :: x in leafMap ==> exists j :: 0 <= j < |sorted| && sorted[j].key == x
    {
      BuiltRepresents(sorted, result.nodes.values, result.nodes.parents, result.nodes.kinds);
      nodes := result.nodes;
      root := result.root;
      leafMap := result.leafMap;
      shape := BuildShape(sorted, 0);
    }

    /**
     * `new SemiDynamicRMQTree<>(keyValuePairSet)`: fails on an empty set, as the builder does;
     * otherwise every key of the set maps to a leaf holding its value, no other key is present,
     * and the height is at most the ceiling of log2 of the number of pairs.
     */
    static method Create(keyValuePairSet: set<KeyValuePair>)
        returns (r: Result<SemiDynamicRMQTree, BuildError>, ghost sorted: seq<KeyValuePair>)
      requires DistinctKeys(keyValuePairSet)
      ensures r.Failure? <==> keyValuePairSet == {}
      ensures r.Failure? ==> r.error == EmptyInput
      ensures r.Success? ==>
                && fresh(r.value) && fresh(r.value.nodes) && r.value.Valid()
                && SortedByKey(sorted) && multiset(sorted) == multiset(keyValuePairSet)
                && r.value.shape == BuildShape(sorted, 0)
                && Built(sorted, 0, r.value.nodes.values, r.value.nodes.parents, r.value.nodes.kinds)
                && Height(r.value.shape) <= CeilLog2(|keyValuePairSet|)
                && r.value.leafMap.Keys == KeySet(keyValuePairSet)
                && forall p :: p in keyValuePairSet ==>
                     p.key in r.value.leafMap && 0 <= r.value.leafMap[p.key] < |r.value.nodes.values| &&
                     r.value.nodes.values[r.value.leafMap[p.key]] == p.value
    {
      var built;
      built, sorted := BuildRMQTree(keyValuePairSet);
      if built.Failure? {
        return Failure(built.error), sorted;
      }
      var tree := new SemiDynamicRMQTree(built.value, sorted);
      assert |sorted| == |keyValuePairSet| by {
        assert |multiset(sorted)| == |multiset(keyValuePairSet)|;
      }
      forall p | p in keyValuePairSet
        ensures p.key in tree.leafMap && 0 <= tree.leafMap[p.key] < |tree.nodes.values|
        ensures tree.nodes.values[tree.leafMap[p.key]] == p.value
      {
        assert p in multiset(sorted);
        var j :| 0 <= j < |sorted| && sorted[j] == p;
      }
      forall x | x in tree.leafMap ensures x in KeySet(keyValuePairSet) {
        var j :| 0 <= j < |sorted| && sorted[j].key == x;
        assert sorted[j] in multiset(keyValuePairSet);
      }
      return Success(tree), sorted;
    }

    /** `getRoot`: the root has no parent and its value is the least value held by any leaf. */
    function GetRoot(): (r: int)
      requires Valid()
      reads this, nodes
      ensures 0 <= r < |nodes.values| && nodes.parents[r] == NoNode
      ensures forall k :: k in leafMap ==> 0 <= leafMap[k] < |nodes.values| && nodes.values[r] <= nodes.values[leafMap[k]]
      ensures exists k :: k in leafMap && nodes.values[r] == nodes.values[leafMap[k]]
    {
      RootIsLeafMinimum(shape, nodes.values);
      root
    }

    /**
     * `update(key, newValue)`: walks from the key's leaf up to the root, lowering every value on
     * the way to at most `newValue`; a key that is not in the tree changes nothing.  The links do
     * not change and the min invariant still holds.
     */
    method Update(key: int, newValue: int)
      requires Valid()
      modifies nodes
      ensures Valid()
      ensures nodes.parents == old(nodes.parents) && nodes.kinds == old(nodes.kinds)
      ensures key in leafMap ==> nodes.values == Relax(old(nodes.values), Elements(LeafPath(shape, key)), newValue)
      ensures key !in leafMap ==> nodes.values == old(nodes.values)
    {
      ghost var path := if key in leafMap then LeafPath(shape, key) else [];
      if key in leafMap {
        LeafPathEnds(shape, key);
        LeafPathUp(shape, key, nodes.parents, nodes.kinds);
        LeafPathDistinct(shape, key);
      }
      var node := if key in leafMap then leafMap[key] else NoNode;
      ghost var j := 0;
      while node != NoNode
        invariant nodes.Valid()
        invariant 0 <= j <= |path|
        invariant node == if j < |path| then path[j] else NoNode
        invariant nodes.parents == old(nodes.parents) && nodes.kinds == old(nodes.kinds)
        invariant nodes.values == Relax(old(nodes.values), Elements(path[..j]), newValue)
        decreases |path| - j
      {
        assert path[j] !in path[..j];
        RelaxStep(old(nodes.values), path, j, newValue);
        nodes.SetValue(node, Min(nodes.GetValue(node), newValue));
        node := nodes.GetParent(node);
        j := j + 1;
      }
      assert path[..j] == path;
      if key in leafMap {
        RelaxPreservesMin(shape, old(nodes.values), key, Elements(path), newValue);
      }
    }

    /**
     * `getRangeMinimum(leftKey, rightKey)`: a missing left key, then a missing right key, then a
     * descending range are errors, in that order.  Otherwise the answer is the least of the two
     * endpoint leaves and the roots of V' and V''; it is at most both endpoint values and, for two
     * distinct keys, the value of some leaf inside the range.  Nothing in the tree changes.
     */
    method GetRangeMinimum(leftKey: int, rightKey: int) returns (r: Result<int, QueryError>)
      requires Valid()
      ensures leftKey !in leafMap ==> r == Failure(LeftKeyMissing(leftKey))
      ensures leftKey in leafMap && rightKey !in leafMap ==> r == Failure(RightKeyMissing(rightKey))
      ensures leftKey in leafMap && rightKey in leafMap && leftKey > rightKey ==>
                r == Failure(DescendingRange(leftKey, rightKey))
      ensures leftKey in leafMap && rightKey in leafMap && leftKey <= rightKey ==>
                r == Success(AsWrittenMinimum(shape, nodes.values, leftKey, rightKey))
      ensures r.Success? ==>
                && leftKey in leafMap && 0 <= leafMap[leftKey] < |nodes.values| && r.value <= nodes.values[leafMap[leftKey]]
                && rightKey in leafMap && 0 <= leafMap[rightKey] < |nodes.values| && r.value <= nodes.values[leafMap[rightKey]]
                && (leftKey < rightKey ==>
                      exists k :: leftKey <= k <= rightKey && k in leafMap && 0 <= leafMap[k] < |nodes.values| &&
                                  r.value == nodes.values[leafMap[k]])
    {
      if leftKey !in leafMap {
        return Failure(LeftKeyMissing(leftKey));
      }
      var leftLeaf := leafMap[leftKey];
      if rightKey !in leafMap {
        return Failure(RightKeyMissing(rightKey));
      }
      var rightLeaf := leafMap[rightKey];
      if leftKey > rightKey {
        return Failure(DescendingRange(leftKey, rightKey));
      }
      var splitNode := ComputeSplitNode(leftLeaf, rightLeaf, leftKey, rightKey);
      var leftPath := GetPath(splitNode, leftLeaf, leftKey);
      var rightPath := GetPath(splitNode, rightLeaf, rightKey);
      QueryPaths(shape, nodes.parents, nodes.kinds, leftKey, rightKey);
      var leftPathV := ComputeLeftPathV(leftPath);
      var rightPathV := ComputeRightPartV(rightPath);
      VTermsInTree(shape, leftKey, rightKey);
      RootIdsInRange(VPrime(shape, leftKey, rightKey), shape, nodes.values);
      RootIdsInRange(VDoublePrime(shape, leftKey, rightKey), shape, nodes.values);
      var vl := ComputeMinimum(leftPathV);
      var vr := ComputeMinimum(rightPathV);
      MinBounds(shape, nodes.values);
      var leftValue := if vl.None? then nodes.GetValue(leftLeaf) else vl.value;
      var rightValue := if vr.None? then nodes.GetValue(rightLeaf) else vr.value;
      AsWrittenFromParts(shape, nodes.values, leftKey, rightKey, leftPathV, rightPathV, leftValue, rightValue);
      leftValue := Min(leftValue, nodes.GetValue(leftLeaf));
      rightValue := Min(rightValue, nodes.GetValue(rightLeaf));
      AsWrittenIsLeafValue(shape, nodes.values, leftKey, rightKey);
      return Success(Min(leftValue, rightValue));
    }

    /**
     * `computeMinimum(nodes)`: nothing for an empty list, otherwise the least value of the listed
     * nodes.
     */
    method ComputeMinimum(ids: seq<int>) returns (r: Option<int>)
      requires nodes.Valid() && forall i :: 0 <= i < |ids| ==> 0 <= ids[i] < |nodes.values|
      ensures r.None? <==> ids == []
      ensures r.Some? ==> (exists i :: 0 <= i < |ids| && r.value == nodes.values[ids[i]])
                          && forall i :: 0 <= i < |ids| ==> r.value <= nodes.values[ids[i]]
    {
      if ids == [] {
        return None;
      }
      var minValue := nodes.GetValue(ids[0]);
      ghost var w := 0;
      for i := 1 to |ids|
        invariant 0 <= w < i && minValue == nodes.values[ids[w]]
        invariant forall x :: 0 <= x < i ==> minValue <= nodes.values[ids[x]]
      {
        var node := ids[i];
        if nodes.GetValue(node) < minValue {
          w := i;
        }
        minValue := Min(minValue, nodes.GetValue(node));
      }
      return Some(minValue);
    }

    /**
     * `computeLeftPathV(path)`: for each node of the path, in order, its right child when its left
     * child is on the path.
     */
    method ComputeLeftPathV(path: seq<int>) returns (nodeList: seq<int>)
      requires nodes.Valid() && PathInternal(path, nodes.kinds)
      ensures nodeList == LeftPathV(path, Elements(path), nodes.kinds)
    {
      var pathSet := Elements(path);
      nodeList := [];
      for i := 0 to |path|
        invariant nodeList == LeftPathV(path[..i], pathSet, nodes.kinds)
      {
        var node := path[i];
        var leftChild := nodes.GetLeftChild(node);
        var rightChild := nodes.GetRightChild(node);
        assert path[..i + 1][..i] == path[..i];
        if leftChild in pathSet {
          nodeList := nodeList + [rightChild];
        }
      }
      assert path[..|path|] == path;
    }

    /**
     * `computeRightPartV(path)`: for each node of the path, in order, its left child when its
     * right child is on the path.
     */
    method ComputeRightPartV(path: seq<int>) returns (nodeList: seq<int>)
      requires nodes.Valid() && PathInternal(path, nodes.kinds)
      ensures nodeList == RightPathV(path, Elements(path), nodes.kinds)
    {
      var pathSet := Elements(path);
      nodeList := [];
      for i := 0 to |path|
        invariant nodeList == RightPathV(path[..i], pathSet, nodes.kinds)
      {
        var node := path[i];
        var leftChild := nodes.GetLeftChild(node);
        var rightChild := nodes.GetRightChild(node);
        assert path[..i + 1][..i] == path[..i];
        if rightChild in pathSet {
          nodeList := nodeList + [leftChild];
        }
      }
      assert path[..|path|] == path;
    }

    /**
     * `getPath(splitNode, leafNode)`: the ancestors of the leaf of `key`, bottom-up, that lie
     * strictly below `splitNode` (all of them when `splitNode` is not an ancestor).
     */
    method GetPath(splitNode: int, leafNode: int, ghost key: int) returns (path: seq<int>)
      requires Valid() && key in leafMap && leafNode == leafMap[key]
      ensures path == TakeUntil(LeafPath(shape, key)[1..], splitNode)
    {
      ghost var p := LeafPath(shape, key);
      LeafPathEnds(shape, key);
      LeafPathUp(shape, key, nodes.parents, nodes.kinds);
      ghost var q := p[1..];
      path := [];
      var node := nodes.GetParent(leafNode);
      ghost var i := 0;
      while node != NoNode && node != splitNode
        invariant 0 <= i <= |q|
        invariant node == if i < |q| then q[i] else NoNode
        invariant path == q[..i] && splitNode !in path
        decreases |q| - i
      {
        PrefixStep(q, i, splitNode);
        path := path + [node];
        node := nodes.GetParent(node);
        i := i + 1;
      }
      TakeUntilStop(q, i, splitNode);
    }

    /**
     * `computeSplitNode(leftLeaf, rightLeaf)`: records the left leaf's ancestors, then returns the
     * first ancestor of the right leaf among them, the root of the split subtree.
     */
    method ComputeSplitNode(leftLeaf: int, rightLeaf: int, ghost lk: int, ghost rk: int) returns (splitNode: int)
      requires Valid() && lk in leafMap && rk in leafMap && leftLeaf == leafMap[lk] && rightLeaf == leafMap[rk]
      ensures splitNode == SplitTree(shape, lk, rk).id
    {
      ghost var a, b := LeafPath(shape, lk), LeafPath(shape, rk);
      LeafPathEnds(shape, lk);
      LeafPathEnds(shape, rk);
      LeafPathUp(shape, lk, nodes.parents, nodes.kinds);
      LeafPathUp(shape, rk, nodes.parents, nodes.kinds);
      var leftPathSet: set<int> := {};
      var node := leftLeaf;
      ghost var i := 0;
      while node != NoNode
        invariant 0 <= i <= |a|
        invariant node == if i < |a| then a[i] else NoNode
        invariant forall j :: 0 <= j < i ==> a[j] in leftPathSet
        invariant forall x :: x in leftPathSet ==> x in a
        decreases |a| - i
      {
        leftPathSet := leftPathSet + {node};
        node := nodes.GetParent(node);
        i := i + 1;
      }
      SplitWalk(shape, lk, rk);
      ghost var s := SplitTree(shape, lk, rk).id;
      ghost var js :| 0 <= js < |b| && b[js] == s && forall x :: 0 <= x < js ==> b[x] !in a;
      node := rightLeaf;
      i := 0;
      while node != NoNode
        invariant 0 <= i <= js && node == b[i]
        decreases js - i
      {
        if node in leftPathSet {
          return node;
        }
        node := nodes.GetParent(node);
        i := i + 1;
      }
      assert false;
      splitNode := NoNode;
    }
  }
}

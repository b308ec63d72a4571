/**
 * The mutable tree nodes (AbstractRMQTreeNode.java, InternalRMQTreeNode.java, LeafRMQTreeNode.java).
 * Nodes live in an arena and are addressed by index; an index is the node's identity, and
 * `NoNode` stands for Java's null.
 */
module Nodes {

  /** The null reference: the parent of a fresh node and of the root, the children of a fresh internal node. */
  const NoNode: int := -1

  /** A leaf has no children; an internal node has a left and a right child. */
  datatype NodeKind = LeafNode | InternalNode(leftChild: int, rightChild: int)

  /** All nodes: node `i` has value `values[i]`, parent `parents[i]` and children as `kinds[i]` says. */
  class NodeArena {
    var values: seq<int>
    var parents: seq<int>
    var kinds: seq<NodeKind>

    ghost predicate Valid()
      reads this
    {
      |values| == |parents| == |kinds|
    }

    constructor ()
      ensures Valid()
      ensures values == [] && parents == [] && kinds == []
    {
      values, parents, kinds := [], [], [];
    }

    /** `new LeafRMQTreeNode<>()`: a fresh leaf; its value is not yet set (0 here) and its parent is null. */
    method NewLeaf() returns (node: int)
      requires Valid()
      modifies this
      ensures Valid()
      ensures node == old(|values|)
      ensures values == old(values) + [0]
      ensures parents == old(parents) + [NoNode]
      ensures kinds == old(kinds) + [LeafNode]
    {
      node := |values|;
      values, parents, kinds := values + [0], parents + [NoNode], kinds + [LeafNode];
    }

    /** `new InternalRMQTreeNode<>()`: a fresh internal node with null parent and null children. */
    method NewInternal() returns (node: int)
      requires Valid()
      modifies this
      ensures Valid()
      ensures node == old(|values|)
      ensures values == old(values) + [0]
      ensures parents == old(parents) + [NoNode]
      ensures kinds == old(kinds) + [InternalNode(NoNode, NoNode)]
    {
      node := |values|;
      values, parents, kinds := values + [0], parents + [NoNode], kinds + [InternalNode(NoNode, NoNode)];
    }

    function GetValue(node: int): int
      requires 0 <= node < |values|
      reads this
    {
      values[node]
    }

    function GetParent(node: int): int
      requires 0 <= node < |parents|
      reads this
    {
      parents[node]
    }

    function GetLeftChild(node: int): int
      requires 0 <= node < |kinds| && kinds[node].InternalNode?
      reads this
    {
      kinds[node].leftChild
    }

    function GetRightChild(node: int): int
      requires 0 <= node < |kinds| && kinds[node].InternalNode?
      reads this
    {
      kinds[node].rightChild
    }

    /** `setValue`: the node's value becomes `value`; parents and children stay as they are. */
    method SetValue(node: int, value: int)
      requires Valid() && 0 <= node < |values|
      modifies this
      ensures Valid()
      ensures values == old(values)[node := value]
      ensures parents == old(parents) && kinds == old(kinds)
    {
      values := values[node := value];
    }

    /** `setParent`: the node's parent becomes `parent`; values and children stay as they are. */
    method SetParent(node: int, parent: int)
      requires Valid() && 0 <= node < |parents|
      modifies this
      ensures Valid()
      ensures parents == old(parents)[node := parent]
      ensures values == old(values) && kinds == old(kinds)
    {
      parents := parents[node := parent];
    }

    /** `setLeftChild`: the left child changes; the right child, the value and the parent do not. */
    method SetLeftChild(node: int, child: int)
      requires Valid() && 0 <= node < |kinds| && kinds[node].InternalNode?
      modifies this
      ensures Valid()
      ensures kinds == old(kinds)[node := InternalNode(child, old(kinds[node].rightChild))]
      ensures values == old(values) && parents == old(parents)
    {
      kinds := kinds[node := InternalNode(child, kinds[node].rightChild)];
    }

    /** `setRightChild`: the right child changes; the left child, the value and the parent do not. */
    method SetRightChild(node: int, child: int)
      requires Valid() && 0 <= node < |kinds| && kinds[node].InternalNode?
      modifies this
      ensures Valid()
      ensures kinds == old(kinds)[node := InternalNode(old(kinds[node].leftChild), child)]
      ensures values == old(values) && parents == old(parents)
    {
      kinds := kinds[node := InternalNode(kinds[node].leftChild, child)];
    }
  }
}

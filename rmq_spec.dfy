/**
 * What `update` and `getRangeMinimum` of SemiDynamicRMQTree.java compute, stated on the tree
 * shape and the arena contents, and the properties of those two operations.
 */
module RMQSpec {
  import opened Utils
  import opened Nodes
  import opened TreeShape

  // ----- update -----

  /** The nodes of a path, as the set the walk visits. */
  function Elements(path: seq<int>): set<int>
  {
    set x | x in path
  }

  /** Every value at an index of `targets` is lowered to at most `newValue`; the others stay. */
  function Relax(values: seq<int>, targets: set<int>, newValue: int): seq<int>
  {
    seq(|values|, i requires 0 <= i < |values| => if i in targets then Min(values[i], newValue) else values[i])
  }

  /**
   * Lowering the values on the path from one leaf to the root keeps the min invariant: each node on
   * the path becomes min(old value, newValue), which is again the minimum of its children.
   * (`targets` may hold indices outside the tree; inside it, it is exactly the path.)
   */
  lemma {:induction false} RelaxPreservesMin(t: Tree, values: seq<int>, k: int, targets: set<int>, newValue: int)
    requires MinConsistent(t, values) && Unique(t) && k in Keys(t)
    requires forall x :: x in Ids(t) ==> (x in targets <==> x in LeafPath(t, k))
    ensures MinConsistent(t, Relax(values, targets, newValue))
  {
    var values' := Relax(values, targets, newValue);
    match t
    case Leaf(_, _) =>
    case Node(id, l, r) =>
      if k in Keys(l) {
        assert LeafPath(t, k) == LeafPath(l, k) + [id];
        RelaxPreservesMin(l, values, k, targets, newValue);
        forall x | x in Ids(r) ensures 0 <= x < |values| && 0 <= x < |values'| && values'[x] == values[x] {
          assert x !in LeafPath(l, k);
          MinBounds(r, values);
        }
        MinFrame(r, values, values');
        assert l.id == LeafPath(l, k)[|LeafPath(l, k)| - 1];
        assert values'[id] == Min(values'[l.id], values'[r.id]);
      } else {
        assert LeafPath(t, k) == LeafPath(r, k) + [id];
        RelaxPreservesMin(r, values, k, targets, newValue);
        forall x | x in Ids(l) ensures 0 <= x < |values| && 0 <= x < |values'| && values'[x] == values[x] {
          assert x !in LeafPath(r, k);
          MinBounds(l, values);
        }
        MinFrame(l, values, values');
        assert r.id == LeafPath(r, k)[|LeafPath(r, k)| - 1];
        assert values'[id] == Min(values'[l.id], values'[r.id]);
      }
  }

  /** The min invariant mentions only indices inside the value list. */
  lemma {:induction false} MinBounds(t: Tree, values: seq<int>)
    requires MinConsistent(t, values)
    ensures forall x :: x in Ids(t) ==> 0 <= x < |values|
  {
    match t
    case Leaf(_, _) =>
    case Node(_, l, r) =>
      MinBounds(l, values);
      MinBounds(r, values);
  }

  /** Updating the same key twice is one update with the smaller of the two values. */
  lemma RelaxTwice(values: seq<int>, targets: set<int>, v1: int, v2: int)
    ensures Relax(Relax(values, targets, v1), targets, v2) == Relax(values, targets, Min(v1, v2))
  {
    var a, b := Relax(Relax(values, targets, v1), targets, v2), Relax(values, targets, Min(v1, v2));
    forall i | 0 <= i < |values| ensures a[i] == b[i] {
      MinAssociative(values[i], v1, v2);
    }
  }

  /** Repeating an update changes nothing. */
  lemma RelaxIdempotent(values: seq<int>, targets: set<int>, v: int)
    ensures Relax(Relax(values, targets, v), targets, v) == Relax(values, targets, v)
  {
    RelaxTwice(values, targets, v, v);
    MinIdempotent(v);
  }

  /** An update never raises a value: each target drops to at most `v`, every other value stays. */
  lemma RelaxNeverRaises(values: seq<int>, targets: set<int>, v: int)
    ensures |Relax(values, targets, v)| == |values|
    ensures forall i :: 0 <= i < |values| ==> Relax(values, targets, v)[i] <= values[i]
    ensures forall i :: 0 <= i < |values| && i in targets ==> Relax(values, targets, v)[i] <= v
    ensures forall i :: 0 <= i < |values| && i !in targets ==> Relax(values, targets, v)[i] == values[i]
  {
  }

  /**
   * One step of the walk in `update`: lowering the next node of the path, when the walk has not
   * seen it yet, extends the set of lowered nodes by that node.
   */
  lemma RelaxStep(values: seq<int>, path: seq<int>, j: int, newValue: int)
    requires 0 <= j < |path| && 0 <= path[j] < |values| && path[j] !in path[..j]
    ensures Relax(values, Elements(path[..j]), newValue)[path[j]] == values[path[j]]
    ensures Relax(values, Elements(path[..j + 1]), newValue)
            == Relax(values, Elements(path[..j]), newValue)[path[j] := Min(values[path[j]], newValue)]
  {
    assert path[..j + 1] == path[..j] + [path[j]];
    assert Elements(path[..j + 1]) == Elements(path[..j]) + {path[j]};
  }

  /** Every node on the path from a leaf to the root holds at most that leaf's value. */
  lemma {:induction false} PathBelowLeaf(t: Tree, values: seq<int>, k: int)
    requires MinConsistent(t, values) && Ordered(t) && k in Keys(t)
    ensures 0 <= LeafMapOf(t)[k] < |values|
    ensures forall i :: 0 <= i < |LeafPath(t, k)| ==>
              0 <= LeafPath(t, k)[i] < |values| && values[LeafPath(t, k)[i]] <= values[LeafMapOf(t)[k]]
  {
    MinBounds(t, values);
    LeafPathEnds(t, k);
    match t
    case Leaf(_, _) =>
    case Node(id, l, r) =>
      var c := if k in Keys(l) then l else r;
      assert LeafPath(t, k) == LeafPath(c, k) + [id];
      PathBelowLeaf(c, values, k);
      SubtreeInherits(c, t, [], [], values);
      assert c.id == LeafPath(c, k)[|LeafPath(c, k)| - 1];
  }

  /**
   * Updating a key with a value that is not below its current value changes nothing, since every
   * ancestor already holds at most the leaf's value.
   */
  lemma RelaxNoOpWhenLarger(t: Tree, values: seq<int>, k: int, newValue: int)
    requires MinConsistent(t, values) && Ordered(t) && k in Keys(t)
    requires 0 <= LeafMapOf(t)[k] < |values| && values[LeafMapOf(t)[k]] <= newValue
    ensures Relax(values, Elements(LeafPath(t, k)), newValue) == values
  {
    PathBelowLeaf(t, values, k);
    var values' := Relax(values, Elements(LeafPath(t, k)), newValue);
    forall i | 0 <= i < |values| ensures values'[i] == values[i] {
      if i in Elements(LeafPath(t, k)) {
        var j :| 0 <= j < |LeafPath(t, k)| && LeafPath(t, k)[j] == i;
      }
    }
  }

  /** The leaf of another key is not on a key's path. */
  lemma {:induction false} OtherLeafOffPath(t: Tree, k: int, k': int)
    requires WellFormed(t) && k in Keys(t) && k' in Keys(t) && k != k'
    ensures LeafMapOf(t)[k'] !in LeafPath(t, k)
  {
    match t
    case Leaf(_, _) =>
    case Node(id, l, r) =>
      var c := if k in Keys(l) then l else r;
      assert LeafPath(t, k) == LeafPath(c, k) + [id];
      SubtreeInherits(c, t, [], [], []);
      if k' in Keys(c) {
        OtherLeafOffPath(c, k, k');
      } else {
        var o := if k in Keys(l) then r else l;
        SubtreeInherits(o, t, [], [], []);
        assert k' in Keys(o);
        ForeignIdOffPath(c, k, LeafMapOf(t)[k']);
      }
  }

  /** An index outside a subtree is not on a path inside it. */
  lemma ForeignIdOffPath(c: Tree, k: int, x: int)
    requires k in Keys(c) && x !in Ids(c)
    ensures x !in LeafPath(c, k)
  {
  }

  /**
   * After an update of key `k`, the leaf of `k` holds min(old value, newValue), the root holds
   * min(old root value, newValue), and the leaf of every other key keeps its value.
   */
  lemma RelaxLeaves(t: Tree, values: seq<int>, k: int, newValue: int)
    requires WellFormed(t) && MinConsistent(t, values) && k in Keys(t)
    ensures var values' := Relax(values, Elements(LeafPath(t, k)), newValue);
            && |values'| == |values|
            && 0 <= LeafMapOf(t)[k] < |values| && values'[LeafMapOf(t)[k]] == Min(values[LeafMapOf(t)[k]], newValue)
            && 0 <= t.id < |values| && values'[t.id] == Min(values[t.id], newValue)
            && forall k' :: k' in Keys(t) && k' != k ==>
                 0 <= LeafMapOf(t)[k'] < |values| && values'[LeafMapOf(t)[k']] == values[LeafMapOf(t)[k']]
  {
    MinBounds(t, values);
    LeafPathEnds(t, k);
    assert LeafPath(t, k)[0] in Elements(LeafPath(t, k));
    assert LeafPath(t, k)[|LeafPath(t, k)| - 1] in Elements(LeafPath(t, k));
    forall k' | k' in Keys(t) && k' != k ensures LeafMapOf(t)[k'] !in Elements(LeafPath(t, k)) {
      OtherLeafOffPath(t, k, k');
    }
  }

  // ----- getRangeMinimum -----

  /** Every node of `path` is internal, as the casts in `computeLeftPathV` and `computeRightPartV` demand. */
  ghost predicate PathInternal(path: seq<int>, kinds: seq<NodeKind>)
  {
    forall i :: 0 <= i < |path| ==> 0 <= path[i] < |kinds| && kinds[path[i]].InternalNode?
  }

  /** V': for each node of `path`, in order, its right child when its left child is in `pathSet`. */
  ghost function LeftPathV(path: seq<int>, pathSet: set<int>, kinds: seq<NodeKind>): seq<int>
    requires PathInternal(path, kinds)
    decreases |path|
  {
    if path == [] then []
    else
      var node := path[|path| - 1];
      LeftPathV(path[..|path| - 1], pathSet, kinds)
        + (if kinds[node].leftChild in pathSet then [kinds[node].rightChild] else [])
  }

  /** V'': for each node of `path`, in order, its left child when its right child is in `pathSet`. */
  ghost function RightPathV(path: seq<int>, pathSet: set<int>, kinds: seq<NodeKind>): seq<int>
    requires PathInternal(path, kinds)
    decreases |path|
  {
    if path == [] then []
    else
      var node := path[|path| - 1];
      RightPathV(path[..|path| - 1], pathSet, kinds)
        + (if kinds[node].rightChild in pathSet then [kinds[node].leftChild] else [])
  }

  lemma RootIdsAppend(a: seq<Tree>, b: seq<Tree>)
    ensures RootIds(a + b) == RootIds(a) + RootIds(b)
  {
    assert forall i :: 0 <= i < |a| + |b| ==> RootIds(a + b)[i] == (RootIds(a) + RootIds(b))[i];
  }

  /** Extending a path by one node above it adds at most that node's right child to V'. */
  lemma LeftPathVSnoc(path: seq<int>, node: int, pathSet: set<int>, kinds: seq<NodeKind>)
    requires PathInternal(path, kinds) && 0 <= node < |kinds| && kinds[node].InternalNode?
    ensures PathInternal(path + [node], kinds)
    ensures LeftPathV(path + [node], pathSet, kinds) ==
            LeftPathV(path, pathSet, kinds) + (if kinds[node].leftChild in pathSet then [kinds[node].rightChild] else [])
  {
    assert (path + [node])[..|path|] == path;
  }

  /** Extending a path by one node above it adds at most that node's left child to V''. */
  lemma RightPathVSnoc(path: seq<int>, node: int, pathSet: set<int>, kinds: seq<NodeKind>)
    requires PathInternal(path, kinds) && 0 <= node < |kinds| && kinds[node].InternalNode?
    ensures PathInternal(path + [node], kinds)
    ensures RightPathV(path + [node], pathSet, kinds) ==
            RightPathV(path, pathSet, kinds) + (if kinds[node].rightChild in pathSet then [kinds[node].leftChild] else [])
  {
    assert (path + [node])[..|path|] == path;
  }

  /** The path above the leaf `k` in a child, followed by the parent, is the path above `k` in the parent. */
  lemma PathAboveLeafStep(u: Tree, k: int)
    requires u.Node? && k in Keys(u)
    ensures var c := if k in Keys(u.left) then u.left else u.right;
            && k in Keys(c)
            && LeafPath(u, k)[1..] == LeafPath(c, k)[1..] + [u.id]
            && (c.id in LeafPath(c, k)[1..] <==> c.Node?)
  {
    var c := if k in Keys(u.left) then u.left else u.right;
    var p := LeafPath(c, k);
    assert LeafPath(u, k) == p + [u.id];
    assert p[|p| - 1] == c.id;
    if c.Leaf? { assert p == [c.id]; }
  }

  /** The child of `u` that holds `k`, where the path from the leaf `k` continues. */
  ghost function ChildTowards(u: Tree, k: int): Tree
    requires u.Node?
  {
    if k in Keys(u.left) then u.left else u.right
  }

  /** Which nodes of the child's subtree are on the path is decided by the path in the child. */
  lemma ChildPathSet(u: Tree, k: int, pathSet: set<int>)
    requires u.Node? && Unique(u) && k in Keys(u)
    requires forall x :: x in Ids(u) ==> (x in pathSet <==> x in LeafPath(u, k)[1..])
    ensures var c := ChildTowards(u, k);
            && k in Keys(c)
            && LeafPath(u, k)[1..] == LeafPath(c, k)[1..] + [u.id]
            && (c.id in pathSet <==> c.Node?)
            && (forall x :: x in Ids(c) ==> (x in pathSet <==> x in LeafPath(c, k)[1..]))
            && (forall x :: x in LeafPath(c, k)[1..] ==> x in Ids(c))
  {
    PathAboveLeafStep(u, k);
    var c := ChildTowards(u, k);
    assert c.id in Ids(u);
    assert forall i :: 0 <= i < |LeafPath(c, k)| ==> LeafPath(c, k)[i] in Ids(c);
  }

  /** One level of `LeftPathVIsRightSubtrees`: the parent adds its right child exactly when the path came up its left child from above the leaf. */
  lemma LeftPathVStep(u: Tree, k: int, pathSet: set<int>, parents: seq<int>, kinds: seq<NodeKind>)
    requires u.Node? && Linked(u, parents, kinds) && WellFormed(u) && k in Keys(u)
    requires forall x :: x in Ids(u) ==> (x in pathSet <==> x in LeafPath(u, k)[1..])
    requires var c := ChildTowards(u, k);
             k in Keys(c) && PathInternal(LeafPath(c, k)[1..], kinds) &&
             LeftPathV(LeafPath(c, k)[1..], pathSet, kinds) == RootIds(RightSubtrees(c, k))
    ensures PathInternal(LeafPath(u, k)[1..], kinds)
    ensures LeftPathV(LeafPath(u, k)[1..], pathSet, kinds) == RootIds(RightSubtrees(u, k))
  {
    ChildPathSet(u, k, pathSet);
    if k in Keys(u.left) {
      LeftPathVUpLeft(u, k, pathSet, kinds);
    } else {
      SiblingOffPath(u, k, pathSet);
      LeftPathVUpRight(u, k, pathSet, kinds);
    }
  }

  /** When the path holds `k` in the right child, the left child is not on it. */
  lemma SiblingOffPath(u: Tree, k: int, pathSet: set<int>)
    requires u.Node? && Unique(u) && k in Keys(u)
    requires forall x :: x in Ids(u) ==> (x in pathSet <==> x in LeafPath(u, k)[1..])
    requires LeafPath(u, k)[1..] == LeafPath(ChildTowards(u, k), k)[1..] + [u.id]
    requires forall x :: x in LeafPath(ChildTowards(u, k), k)[1..] ==> x in Ids(ChildTowards(u, k))
    ensures k in Keys(u.left) ==> u.right.id !in pathSet
    ensures k !in Keys(u.left) ==> u.left.id !in pathSet
  {
    assert u.left.id in Ids(u.left) && u.right.id in Ids(u.right);
  }

  /** The path comes up through the left child: V' gains the right child when the left child is internal. */
  lemma LeftPathVUpLeft(u: Tree, k: int, pathSet: set<int>, kinds: seq<NodeKind>)
    requires u.Node? && 0 <= u.id < |kinds| && kinds[u.id] == InternalNode(u.left.id, u.right.id)
    requires k in Keys(u.left) && LeafPath(u, k)[1..] == LeafPath(u.left, k)[1..] + [u.id]
    requires u.left.id in pathSet <==> u.left.Node?
    requires PathInternal(LeafPath(u.left, k)[1..], kinds)
    requires LeftPathV(LeafPath(u.left, k)[1..], pathSet, kinds) == RootIds(RightSubtrees(u.left, k))
    ensures PathInternal(LeafPath(u, k)[1..], kinds)
    ensures LeftPathV(LeafPath(u, k)[1..], pathSet, kinds) == RootIds(RightSubtrees(u, k))
  {
    LeftPathVSnoc(LeafPath(u.left, k)[1..], u.id, pathSet, kinds);
    var tail := if u.left.Node? then [u.right] else [];
    RootIdsAppend(RightSubtrees(u.left, k), tail);
    assert RootIds(tail) == (if u.left.Node? then [u.right.id] else []);
  }

  /** The path comes up through the right child: V' gains nothing at this node. */
  lemma LeftPathVUpRight(u: Tree, k: int, pathSet: set<int>, kinds: seq<NodeKind>)
    requires u.Node? && 0 <= u.id < |kinds| && kinds[u.id] == InternalNode(u.left.id, u.right.id)
    requires k !in Keys(u.left) && k in Keys(u.right)
    requires LeafPath(u, k)[1..] == LeafPath(u.right, k)[1..] + [u.id]
    requires u.left.id !in pathSet
    requires PathInternal(LeafPath(u.right, k)[1..], kinds)
    requires LeftPathV(LeafPath(u.right, k)[1..], pathSet, kinds) == RootIds(RightSubtrees(u.right, k))
    ensures PathInternal(LeafPath(u, k)[1..], kinds)
    ensures LeftPathV(LeafPath(u, k)[1..], pathSet, kinds) == RootIds(RightSubtrees(u, k))
  {
    LeftPathVSnoc(LeafPath(u.right, k)[1..], u.id, pathSet, kinds);
  }

  /** One level of `RightPathVIsLeftSubtrees`. */
  lemma RightPathVStep(u: Tree, k: int, pathSet: set<int>, parents: seq<int>, kinds: seq<NodeKind>)
    requires u.Node? && Linked(u, parents, kinds) && WellFormed(u) && k in Keys(u)
    requires forall x :: x in Ids(u) ==> (x in pathSet <==> x in LeafPath(u, k)[1..])
    requires var c := ChildTowards(u, k);
             k in Keys(c) && PathInternal(LeafPath(c, k)[1..], kinds) &&
             RightPathV(LeafPath(c, k)[1..], pathSet, kinds) == RootIds(LeftSubtrees(c, k))
    ensures PathInternal(LeafPath(u, k)[1..], kinds)
    ensures RightPathV(LeafPath(u, k)[1..], pathSet, kinds) == RootIds(LeftSubtrees(u, k))
  {
    ChildPathSet(u, k, pathSet);
    SiblingOffPath(u, k, pathSet);
    if k in Keys(u.left) {
      assert k !in Keys(u.right);
      RightPathVUpLeft(u, k, pathSet, kinds);
    } else {
      RightPathVUpRight(u, k, pathSet, kinds);
    }
  }

  /** The path comes up through the left child: V'' gains nothing at this node. */
  lemma RightPathVUpLeft(u: Tree, k: int, pathSet: set<int>, kinds: seq<NodeKind>)
    requires u.Node? && 0 <= u.id < |kinds| && kinds[u.id] == InternalNode(u.left.id, u.right.id)
    requires k in Keys(u.left) && k !in Keys(u.right)
    requires LeafPath(u, k)[1..] == LeafPath(u.left, k)[1..] + [u.id]
    requires u.right.id !in pathSet
    requires PathInternal(LeafPath(u.left, k)[1..], kinds)
    requires RightPathV(LeafPath(u.left, k)[1..], pathSet, kinds) == RootIds(LeftSubtrees(u.left, k))
    ensures PathInternal(LeafPath(u, k)[1..], kinds)
    ensures RightPathV(LeafPath(u, k)[1..], pathSet, kinds) == RootIds(LeftSubtrees(u, k))
  {
    RightPathVSnoc(LeafPath(u.left, k)[1..], u.id, pathSet, kinds);
  }

  /** The path comes up through the right child: V'' gains the left child when the right child is internal. */
  lemma RightPathVUpRight(u: Tree, k: int, pathSet: set<int>, kinds: seq<NodeKind>)
    requires u.Node? && 0 <= u.id < |kinds| && kinds[u.id] == InternalNode(u.left.id, u.right.id)
    requires k !in Keys(u.left) && k in Keys(u.right)
    requires LeafPath(u, k)[1..] == LeafPath(u.right, k)[1..] + [u.id]
    requires u.right.id in pathSet <==> u.right.Node?
    requires PathInternal(LeafPath(u.right, k)[1..], kinds)
    requires RightPathV(LeafPath(u.right, k)[1..], pathSet, kinds) == RootIds(LeftSubtrees(u.right, k))
    ensures PathInternal(LeafPath(u, k)[1..], kinds)
    ensures RightPathV(LeafPath(u, k)[1..], pathSet, kinds) == RootIds(LeftSubtrees(u, k))
  {
    RightPathVSnoc(LeafPath(u.right, k)[1..], u.id, pathSet, kinds);
    var tail := if u.right.Node? then [u.left] else [];
    RootIdsAppend(LeftSubtrees(u.right, k), tail);
    assert RootIds(tail) == (if u.right.Node? then [u.left.id] else []);
  }

  /**
   * On the path from the leaf `k` up to the root of `u` (leaf excluded), the right children taken by
   * V' are exactly the roots of `RightSubtrees(u, k)`: a node contributes only when the path goes
   * on through its left child, and the leaf is not on the path, so the lowest node never does.
   */
  lemma {:induction false} LeftPathVIsRightSubtrees(u: Tree, k: int, pathSet: set<int>, parents: seq<int>, kinds: seq<NodeKind>)
    requires Linked(u, parents, kinds) && WellFormed(u) && k in Keys(u)
    requires forall x :: x in Ids(u) ==> (x in pathSet <==> x in LeafPath(u, k)[1..])
    ensures PathInternal(LeafPath(u, k)[1..], kinds)
    ensures LeftPathV(LeafPath(u, k)[1..], pathSet, kinds) == RootIds(RightSubtrees(u, k))
  {
    if u.Leaf? {
      assert LeafPath(u, k)[1..] == [];
    } else {
      ChildPathSet(u, k, pathSet);
      LeftPathVIsRightSubtrees(ChildTowards(u, k), k, pathSet, parents, kinds);
      LeftPathVStep(u, k, pathSet, parents, kinds);
    }
  }

  /** The mirror image of `LeftPathVIsRightSubtrees`, for V'' and the right leaf's path. */
  lemma {:induction false} RightPathVIsLeftSubtrees(u: Tree, k: int, pathSet: set<int>, parents: seq<int>, kinds: seq<NodeKind>)
    requires Linked(u, parents, kinds) && WellFormed(u) && k in Keys(u)
    requires forall x :: x in Ids(u) ==> (x in pathSet <==> x in LeafPath(u, k)[1..])
    ensures PathInternal(LeafPath(u, k)[1..], kinds)
    ensures RightPathV(LeafPath(u, k)[1..], pathSet, kinds) == RootIds(LeftSubtrees(u, k))
  {
    if u.Leaf? {
      assert LeafPath(u, k)[1..] == [];
    } else {
      ChildPathSet(u, k, pathSet);
      RightPathVIsLeftSubtrees(ChildTowards(u, k), k, pathSet, parents, kinds);
      RightPathVStep(u, k, pathSet, parents, kinds);
    }
  }

  /**
   * The subtrees whose roots make up V' in `getRangeMinimum`: for two keys, the right siblings
   * collected below the split node on the left leaf's side; for one key (where the split node is
   * the leaf itself and the path runs up to the root), those collected on the whole path.
   */
  ghost function VPrime(t: Tree, lk: int, rk: int): seq<Tree>
    requires WellFormed(t) && lk in Keys(t) && rk in Keys(t) && lk <= rk
  {
    SplitTreeFacts(t, lk, rk);
    if lk < rk then RightSubtrees(SplitTree(t, lk, rk).left, lk) else RightSubtrees(t, lk)
  }

  /** The subtrees whose roots make up V'', the mirror image of `VPrime` on the right leaf's side. */
  ghost function VDoublePrime(t: Tree, lk: int, rk: int): seq<Tree>
    requires WellFormed(t) && lk in Keys(t) && rk in Keys(t) && lk <= rk
  {
    SplitTreeFacts(t, lk, rk);
    if lk < rk then LeftSubtrees(SplitTree(t, lk, rk).right, rk) else LeftSubtrees(t, rk)
  }

  /**
   * Every subtree of V' and V'' lies inside the tree; for two keys all its keys lie strictly
   * between them, for one key those of V' lie above it and those of V'' below it.
   */
  lemma VTermsInTree(t: Tree, lk: int, rk: int)
    requires WellFormed(t) && lk in Keys(t) && rk in Keys(t) && lk <= rk
    ensures forall i :: 0 <= i < |VPrime(t, lk, rk)| ==>
              SubtreeOf(VPrime(t, lk, rk)[i], t) &&
              forall x :: x in Keys(VPrime(t, lk, rk)[i]) ==> lk < x && (lk < rk ==> x < rk)
    ensures forall i :: 0 <= i < |VDoublePrime(t, lk, rk)| ==>
              SubtreeOf(VDoublePrime(t, lk, rk)[i], t) &&
              forall x :: x in Keys(VDoublePrime(t, lk, rk)[i]) ==> x < rk && (lk < rk ==> lk < x)
  {
    SplitTreeFacts(t, lk, rk);
    if lk < rk {
      var s := SplitTree(t, lk, rk);
      SubtreeInherits(s, t, [], [], []);
      assert SubtreeOf(s.left, s) && SubtreeOf(s.right, s);
      SubtreeTransitive(s.left, s, t);
      SubtreeTransitive(s.right, s, t);
      RightSubtreesAbove(s.left, lk);
      LeftSubtreesBelow(s.right, rk);
      forall i | 0 <= i < |VPrime(t, lk, rk)|
        ensures SubtreeOf(VPrime(t, lk, rk)[i], t) && forall x :: x in Keys(VPrime(t, lk, rk)[i]) ==> x < rk
      {
        var u := VPrime(t, lk, rk)[i];
        SubtreeTransitive(u, s.left, t);
        SubtreeInherits(u, s.left, [], [], []);
      }
      forall i | 0 <= i < |VDoublePrime(t, lk, rk)|
        ensures SubtreeOf(VDoublePrime(t, lk, rk)[i], t) && forall x :: x in Keys(VDoublePrime(t, lk, rk)[i]) ==> lk < x
      {
        var u := VDoublePrime(t, lk, rk)[i];
        SubtreeTransitive(u, s.right, t);
        SubtreeInherits(u, s.right, [], [], []);
      }
    } else {
      RightSubtreesAbove(t, lk);
      LeftSubtreesBelow(t, rk);
    }
  }

  /** The values at a list of arena indices. */
  ghost function ValuesAt(ids: seq<int>, values: seq<int>): (r: seq<int>)
    requires forall i :: 0 <= i < |ids| ==> 0 <= ids[i] < |values|
    ensures |r| == |ids| && forall i :: 0 <= i < |ids| ==> r[i] == values[ids[i]]
  {
    seq(|ids|, i requires 0 <= i < |ids| => values[ids[i]])
  }

  /** The roots of subtrees of `t` are arena indices with a value. */
  lemma RootIdsInRange(ts: seq<Tree>, t: Tree, values: seq<int>)
    requires MinConsistent(t, values)
    requires forall i :: 0 <= i < |ts| ==> SubtreeOf(ts[i], t)
    ensures forall i :: 0 <= i < |RootIds(ts)| ==> 0 <= RootIds(ts)[i] < |values|
  {
    MinBounds(t, values);
    forall i | 0 <= i < |ts| ensures ts[i].id in Ids(t) {
      SubtreeInherits(ts[i], t, [], [], values);
      assert ts[i].id in Ids(ts[i]);
    }
  }

  /**
   * The values `getRangeMinimum` takes the minimum of: the two endpoint leaves, then the roots of
   * V', then those of V''.
   */
  ghost function QueryTerms(t: Tree, values: seq<int>, lk: int, rk: int): (terms: seq<int>)
    requires WellFormed(t) && MinConsistent(t, values) && lk in Keys(t) && rk in Keys(t) && lk <= rk
    ensures |terms| == 2 + |VPrime(t, lk, rk)| + |VDoublePrime(t, lk, rk)|
  {
    VTermsInTree(t, lk, rk);
    MinBounds(t, values);
    RootIdsInRange(VPrime(t, lk, rk), t, values);
    RootIdsInRange(VDoublePrime(t, lk, rk), t, values);
    [values[LeafMapOf(t)[lk]], values[LeafMapOf(t)[rk]]]
      + ValuesAt(RootIds(VPrime(t, lk, rk)), values)
      + ValuesAt(RootIds(VDoublePrime(t, lk, rk)), values)
  }

  /**
   * `getPath` from the split node followed by `computeLeftPathV` yields the roots of V', and
   * `getPath` followed by `computeRightPartV` those of V''.  For one key the split node is the
   * leaf itself, so both paths run all the way up to the root.
   */
  lemma QueryPaths(t: Tree, parents: seq<int>, kinds: seq<NodeKind>, lk: int, rk: int)
    requires WellFormed(t) && Linked(t, parents, kinds) && lk in Keys(t) && rk in Keys(t) && lk <= rk
    ensures var lp := TakeUntil(LeafPath(t, lk)[1..], SplitTree(t, lk, rk).id);
            PathInternal(lp, kinds) && LeftPathV(lp, Elements(lp), kinds) == RootIds(VPrime(t, lk, rk))
    ensures var rp := TakeUntil(LeafPath(t, rk)[1..], SplitTree(t, lk, rk).id);
            PathInternal(rp, kinds) && RightPathV(rp, Elements(rp), kinds) == RootIds(VDoublePrime(t, lk, rk))
  {
    SplitTreeFacts(t, lk, rk);
    var s := SplitTree(t, lk, rk);
    if lk < rk {
      LeftOpenPath(t, lk, rk);
      RightOpenPath(t, lk, rk);
      SubtreeInherits(s, t, parents, kinds, []);
      assert SubtreeOf(s.left, s) && SubtreeOf(s.right, s);
      SubtreeInherits(s.left, s, parents, kinds, []);
      SubtreeInherits(s.right, s, parents, kinds, []);
      var lp, rp := LeafPath(s.left, lk)[1..], LeafPath(s.right, rk)[1..];
      LeftPathVIsRightSubtrees(s.left, lk, Elements(lp), parents, kinds);
      RightPathVIsLeftSubtrees(s.right, rk, Elements(rp), parents, kinds);
    } else {
      LeafPathEnds(t, lk);
      LeafPathDistinct(t, lk);
      var p := LeafPath(t, lk);
      assert s.id == p[0];
      assert s.id !in p[1..] by {
        forall x | 0 <= x < |p[1..]| ensures p[1..][x] != s.id {
          assert p[1..][x] == p[x + 1];
        }
      }
      TakeUntilAbsent(p[1..], s.id);
      LeftPathVIsRightSubtrees(t, lk, Elements(p[1..]), parents, kinds);
      RightPathVIsLeftSubtrees(t, rk, Elements(p[1..]), parents, kinds);
    }
  }

  /**
   * How `getRangeMinimum` combines its pieces: `vl` is the minimum of V' (or the left leaf's
   * value when V' is empty), `vr` likewise for V''; min(min(vl, left), min(vr, right)) is the
   * least of all the query terms.
   */
  lemma CombineTerms(left: int, right: int, a: seq<int>, b: seq<int>, vl: int, vr: int)
    requires |a| == 0 ==> vl == left
    requires |a| > 0 ==> (exists i :: 0 <= i < |a| && vl == a[i]) && forall i :: 0 <= i < |a| ==> vl <= a[i]
    requires |b| == 0 ==> vr == right
    requires |b| > 0 ==> (exists i :: 0 <= i < |b| && vr == b[i]) && forall i :: 0 <= i < |b| ==> vr <= b[i]
    ensures Min(Min(vl, left), Min(vr, right)) == MinOf([left, right] + a + b)
  {
    CombineBelow(left, right, a, b, vl, vr);
    CombineAttained(left, right, a, b, vl, vr);
    MinOfUnique([left, right] + a + b, Min(Min(vl, left), Min(vr, right)));
  }

  /**
   * The pieces `getRangeMinimum` computes, put together as the code does, give `AsWrittenMinimum`:
   * `vl` is the minimum over the values at `lids` (the left leaf's value if there are none), `vr`
   * likewise over `rids`, where `lids` and `rids` are the roots of V' and V''.
   */
  lemma AsWrittenFromParts(t: Tree, values: seq<int>, lk: int, rk: int, lids: seq<int>, rids: seq<int>, vl: int, vr: int)
    requires WellFormed(t) && MinConsistent(t, values) && lk in Keys(t) && rk in Keys(t) && lk <= rk
    requires lids == RootIds(VPrime(t, lk, rk)) && rids == RootIds(VDoublePrime(t, lk, rk))
    requires forall i :: 0 <= i < |lids| ==> 0 <= lids[i] < |values|
    requires forall i :: 0 <= i < |rids| ==> 0 <= rids[i] < |values|
    requires 0 <= LeafMapOf(t)[lk] < |values| && 0 <= LeafMapOf(t)[rk] < |values|
    requires lids == [] ==> vl == values[LeafMapOf(t)[lk]]
    requires lids != [] ==> (exists i :: 0 <= i < |lids| && vl == values[lids[i]]) && forall i :: 0 <= i < |lids| ==> vl <= values[lids[i]]
    requires rids == [] ==> vr == values[LeafMapOf(t)[rk]]
    requires rids != [] ==> (exists i :: 0 <= i < |rids| && vr == values[rids[i]]) && forall i :: 0 <= i < |rids| ==> vr <= values[rids[i]]
    ensures Min(Min(vl, values[LeafMapOf(t)[lk]]), Min(vr, values[LeafMapOf(t)[rk]])) == AsWrittenMinimum(t, values, lk, rk)
  {
    var a, b := ValuesAt(lids, values), ValuesAt(rids, values);
    if lids != [] {
      var i :| 0 <= i < |lids| && vl == values[lids[i]];
      assert vl == a[i];
    }
    if rids != [] {
      var i :| 0 <= i < |rids| && vr == values[rids[i]];
      assert vr == b[i];
    }
    CombineTerms(values[LeafMapOf(t)[lk]], values[LeafMapOf(t)[rk]], a, b, vl, vr);
    assert QueryTerms(t, values, lk, rk) == [values[LeafMapOf(t)[lk]], values[LeafMapOf(t)[rk]]] + a + b;
  }

  lemma CombineBelow(left: int, right: int, a: seq<int>, b: seq<int>, vl: int, vr: int)
    requires forall i :: 0 <= i < |a| ==> vl <= a[i]
    requires forall i :: 0 <= i < |b| ==> vr <= b[i]
    ensures forall i :: 0 <= i < |[left, right] + a + b| ==>
              Min(Min(vl, left), Min(vr, right)) <= ([left, right] + a + b)[i]
  {
    var terms := [left, right] + a + b;
    var m := Min(Min(vl, left), Min(vr, right));
    forall i | 0 <= i < |terms| ensures m <= terms[i] {
      if 2 <= i < 2 + |a| { assert terms[i] == a[i - 2]; }
      else if 2 + |a| <= i { assert terms[i] == b[i - 2 - |a|]; }
    }
  }

  lemma CombineAttained(left: int, right: int, a: seq<int>, b: seq<int>, vl: int, vr: int)
    requires |a| == 0 ==> vl == left
    requires |a| > 0 ==> exists i :: 0 <= i < |a| && vl == a[i]
    requires |b| == 0 ==> vr == right
    requires |b| > 0 ==> exists i :: 0 <= i < |b| && vr == b[i]
    ensures exists i :: 0 <= i < |[left, right] + a + b| &&
                        Min(Min(vl, left), Min(vr, right)) == ([left, right] + a + b)[i]
  {
    var terms := [left, right] + a + b;
    var m := Min(Min(vl, left), Min(vr, right));
    if m == left {
      assert terms[0] == m;
    } else if m == right {
      assert terms[1] == m;
    } else if m == vl {
      var i :| 0 <= i < |a| && vl == a[i];
      assert terms[2 + i] == a[i];
    } else {
      var i :| 0 <= i < |b| && vr == b[i];
      assert terms[2 + |a| + i] == b[i];
    }
  }

  /** What `getRangeMinimum(lk, rk)` returns, as the code computes it. */
  ghost function AsWrittenMinimum(t: Tree, values: seq<int>, lk: int, rk: int): int
    requires WellFormed(t) && MinConsistent(t, values) && lk in Keys(t) && rk in Keys(t) && lk <= rk
  {
    MinOf(QueryTerms(t, values, lk, rk))
  }

  /**
   * The answer is at most the values at both endpoints and is the value of some leaf; for two
   * distinct keys that leaf's key lies in the range, so the answer is never below the true range
   * minimum.  For a single key the leaf may lie outside the range.
   */
  lemma AsWrittenIsLeafValue(t: Tree, values: seq<int>, lk: int, rk: int)
    requires WellFormed(t) && MinConsistent(t, values) && lk in Keys(t) && rk in Keys(t) && lk <= rk
    ensures 0 <= LeafMapOf(t)[lk] < |values| && 0 <= LeafMapOf(t)[rk] < |values|
    ensures AsWrittenMinimum(t, values, lk, rk) <= values[LeafMapOf(t)[lk]]
    ensures AsWrittenMinimum(t, values, lk, rk) <= values[LeafMapOf(t)[rk]]
    ensures exists k :: k in Keys(t) && 0 <= LeafMapOf(t)[k] < |values| &&
                        AsWrittenMinimum(t, values, lk, rk) == values[LeafMapOf(t)[k]] &&
                        (lk < rk ==> lk <= k <= rk)
  {
    MinBounds(t, values);
    var terms := QueryTerms(t, values, lk, rk);
    var m := AsWrittenMinimum(t, values, lk, rk);
    assert terms[0] == values[LeafMapOf(t)[lk]] && terms[1] == values[LeafMapOf(t)[rk]];
    var i :| 0 <= i < |terms| && m == terms[i];
    if i >= 2 {
      var u := QueryTermTree(t, values, lk, rk, i);
      TermIsLeafValue(u, t, values);
      var k :| k in Keys(u) && k in Keys(t) && 0 <= LeafMapOf(t)[k] < |values| && values[u.id] == values[LeafMapOf(t)[k]];
      assert m == values[LeafMapOf(t)[k]];
    }
  }

  /** The subtree whose root value is the query term at position `i` (past the two endpoints). */
  lemma QueryTermTree(t: Tree, values: seq<int>, lk: int, rk: int, i: int) returns (u: Tree)
    requires WellFormed(t) && MinConsistent(t, values) && lk in Keys(t) && rk in Keys(t) && lk <= rk
    requires 2 <= i < |QueryTerms(t, values, lk, rk)|
    ensures SubtreeOf(u, t) && 0 <= u.id < |values| && QueryTerms(t, values, lk, rk)[i] == values[u.id]
    ensures forall x :: x in Keys(u) ==> (lk < rk ==> lk < x < rk)
  {
    VTermsInTree(t, lk, rk);
    var a, b := VPrime(t, lk, rk), VDoublePrime(t, lk, rk);
    RootIdsInRange(a, t, values);
    RootIdsInRange(b, t, values);
    var terms := QueryTerms(t, values, lk, rk);
    if i < 2 + |a| {
      u := a[i - 2];
      assert RootIds(a)[i - 2] == u.id;
      assert terms[i] == ValuesAt(RootIds(a), values)[i - 2];
    } else {
      u := b[i - 2 - |a|];
      assert RootIds(b)[i - 2 - |a|] == u.id;
      assert terms[i] == ValuesAt(RootIds(b), values)[i - 2 - |a|];
    }
  }

  /** The root value of a subtree is the value of one of its leaves. */
  lemma TermIsLeafValue(u: Tree, t: Tree, values: seq<int>)
    requires WellFormed(t) && MinConsistent(t, values) && SubtreeOf(u, t)
    ensures 0 <= u.id < |values|
    ensures exists k :: k in Keys(u) && k in Keys(t) && 0 <= LeafMapOf(t)[k] < |values| &&
                        values[u.id] == values[LeafMapOf(t)[k]]
  {
    MinBounds(t, values);
    SubtreeInherits(u, t, [], [], values);
    RootIsLeafMinimum(u, values);
    var k :| k in Keys(u) && values[u.id] == values[LeafMapOf(u)[k]];
    assert LeafMapOf(t)[k] == LeafMapOf(u)[k];
  }

  // ----- The two counterexamples -----

  /** The tree built over the keys 1, 2, 3, 4: leaves at indices 0, 1, 3, 4, internal nodes at 2, 5 and root 6. */
  ghost const FourKeyTree: Tree := Node(6, Node(2, Leaf(0, 1), Leaf(1, 2)), Node(5, Leaf(3, 3), Leaf(4, 4)))

  /** The arena values after building over the pairs (1, 1), (2, 2), (3, 3), (4, 4). */
  const BuiltValues: seq<int> := [1, 2, 1, 3, 4, 3, 1]

  /** The arena values after `update(3, 0)` on that tree. */
  const UpdatedValues: seq<int> := [1, 2, 1, 0, 4, 0, 0]

  lemma FourKeyTreeFacts()
    ensures Keys(FourKeyTree) == {1, 2, 3, 4}
    ensures WellFormed(FourKeyTree)
    ensures LeafMapOf(FourKeyTree) == map[1 := 0, 2 := 1, 3 := 3, 4 := 4]
    ensures MinConsistent(FourKeyTree, BuiltValues) && MinConsistent(FourKeyTree, UpdatedValues)
    ensures LeafPath(FourKeyTree, 3) == [3, 5, 6]
  {
    FourKeyTreeShape();
    FourKeyTreeMins(BuiltValues);
    FourKeyTreeMins(UpdatedValues);
  }

  lemma FourKeyTreeShape()
    ensures Keys(FourKeyTree) == {1, 2, 3, 4}
    ensures WellFormed(FourKeyTree)
    ensures LeafMapOf(FourKeyTree) == map[1 := 0, 2 := 1, 3 := 3, 4 := 4]
    ensures LeafPath(FourKeyTree, 3) == [3, 5, 6]
  {
    var t := FourKeyTree;
    assert Keys(t.left) == {1, 2} && Keys(t.right) == {3, 4};
    FourKeyTreeUnique();
  }

  /** The min invariant on that tree is exactly three equations on the arena values. */
  lemma FourKeyTreeMins(values: seq<int>)
    requires |values| == 7
    requires values[2] == Min(values[0], values[1]) && values[5] == Min(values[3], values[4])
    requires values[6] == Min(values[2], values[5])
    ensures MinConsistent(FourKeyTree, values)
  {
    var t := FourKeyTree;
    assert MinConsistent(t.left, values) && MinConsistent(t.right, values);
  }

  lemma FourKeyTreeUnique()
    ensures Unique(FourKeyTree)
  {
    var t := FourKeyTree;
    assert Ids(t.left) == {2, 0, 1} && Ids(t.right) == {5, 3, 4};
  }

  /** `update(3, 0)` lowers exactly the values on the path 3, 5, 6 of that tree. */
  lemma UpdateThreeToZero()
    ensures Relax(BuiltValues, Elements(LeafPath(FourKeyTree, 3)), 0) == UpdatedValues
  {
    FourKeyTreeFacts();
    assert Elements([3, 5, 6]) == {3, 5, 6};
  }

  /**
   * After `update(3, 0)`, the range [2, 4] holds key 3 with value 0, yet the answer is 2: leaf 3
   * is the left sibling of the right endpoint's leaf, under node 5, the only node of the right
   * path, whose right child is not in the path set, so it is never looked at.
   */
  lemma UpdatedRangeCounterexample()
    ensures WellFormed(FourKeyTree) && MinConsistent(FourKeyTree, UpdatedValues)
    ensures 2 in Keys(FourKeyTree) && 3 in Keys(FourKeyTree) && 4 in Keys(FourKeyTree)
    ensures UpdatedValues[LeafMapOf(FourKeyTree)[3]] == 0
    ensures AsWrittenMinimum(FourKeyTree, UpdatedValues, 2, 4) == 2
  {
    FourKeyTreeFacts();
    var t := FourKeyTree;
    assert SplitTree(t, 2, 4) == t;
    assert VPrime(t, 2, 4) == [];
    assert VDoublePrime(t, 2, 4) == [];
    assert QueryTerms(t, UpdatedValues, 2, 4) == [2, 4];
  }

  /**
   * Before any update, `getRangeMinimum(4, 4)` answers 1, the value of the subtree over keys 1
   * and 2, instead of 4: for one key the paths run up to the root and collect siblings outside
   * the range.
   */
  lemma SingleKeyCounterexample()
    ensures WellFormed(FourKeyTree) && MinConsistent(FourKeyTree, BuiltValues) && 4 in Keys(FourKeyTree)
    ensures BuiltValues[LeafMapOf(FourKeyTree)[4]] == 4
    ensures AsWrittenMinimum(FourKeyTree, BuiltValues, 4, 4) == 1
  {
    FourKeyTreeFacts();
    var t := FourKeyTree;
    assert SplitTree(t, 4, 4) == Leaf(4, 4);
    assert VPrime(t, 4, 4) == [];
    assert VDoublePrime(t, 4, 4) == [t.left];
    assert QueryTerms(t, BuiltValues, 4, 4) == [4, 4, 1];
  }
}

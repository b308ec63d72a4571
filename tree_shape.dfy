/**
 * The shape of a built tree as a ghost value over arena indices, and what it means for the
 * arena to hold that shape.  All walks of the source start at a leaf, so paths are named by
 * the leaf's key.
 */
module TreeShape {
  import opened Utils
  import opened Nodes

  /** A leaf carries the key it was built for; every node carries its arena index. */
  datatype Tree = Leaf(id: int, key: int) | Node(id: int, left: Tree, right: Tree)

  /** The arena indices of all nodes of `t`. */
  ghost function Ids(t: Tree): set<int>
  {
    match t
    case Leaf(id, _) => {id}
    case Node(id, l, r) => {id} + Ids(l) + Ids(r)
  }

  /** The keys of the leaves of `t`. */
  ghost function Keys(t: Tree): set<int>
  {
    match t
    case Leaf(_, key) => {key}
    case Node(_, l, r) => Keys(l) + Keys(r)
  }

  /** No arena index is used twice: node identity in the source. */
  ghost predicate Unique(t: Tree)
  {
    match t
    case Leaf(_, _) => true
    case Node(id, l, r) =>
      Unique(l) && Unique(r) && Ids(l) !! Ids(r) && id !in Ids(l) && id !in Ids(r)
  }

  /** Every key of a left subtree is below every key of the matching right subtree. */
  ghost predicate Ordered(t: Tree)
  {
    match t
    case Leaf(_, _) => true
    case Node(_, l, r) =>
      Ordered(l) && Ordered(r) && forall x, y :: x in Keys(l) && y in Keys(r) ==> x < y
  }

  ghost predicate WellFormed(t: Tree)
  {
    Unique(t) && Ordered(t)
  }

  /** The leaves of `t` read left to right. */
  ghost function LeafSeq(t: Tree): (s: seq<Tree>)
    ensures |s| > 0
    ensures forall i :: 0 <= i < |s| ==> s[i].Leaf? && s[i].key in Keys(t) && s[i].id in Ids(t)
  {
    match t
    case Leaf(_, _) => [t]
    case Node(_, l, r) => LeafSeq(l) + LeafSeq(r)
  }

  /** Key to leaf index, as the builder's map records it. */
  ghost function LeafMapOf(t: Tree): (m: map<int, int>)
    ensures m.Keys == Keys(t)
    ensures forall k :: k in m ==> m[k] in Ids(t)
  {
    match t
    case Leaf(id, key) => map[key := id]
    case Node(_, l, r) => LeafMapOf(l) + LeafMapOf(r)
  }

  /** The number of edges on the longest path from the root down to a leaf. */
  ghost function Height(t: Tree): nat
  {
    match t
    case Leaf(_, _) => 0
    case Node(_, l, r) => 1 + (if Height(l) < Height(r) then Height(r) else Height(l))
  }

  /**
   * The arena links hold the shape of `t`: a leaf index is a leaf node; an internal index has the
   * indices of its two subtrees as left and right child, and both children name it as parent.
   * The parent of `t`'s own root is not constrained here.
   */
  ghost predicate Linked(t: Tree, parents: seq<int>, kinds: seq<NodeKind>)
  {
    match t
    case Leaf(id, _) => 0 <= id < |kinds| && kinds[id] == LeafNode
    case Node(id, l, r) =>
      && 0 <= id < |kinds|
      && kinds[id] == InternalNode(l.id, r.id)
      && Linked(l, parents, kinds) && Linked(r, parents, kinds)
      && 0 <= l.id < |parents| && parents[l.id] == id
      && 0 <= r.id < |parents| && parents[r.id] == id
  }

  /** Every internal value is the minimum of its two children's values. */
  ghost predicate MinConsistent(t: Tree, values: seq<int>)
  {
    match t
    case Leaf(id, _) => 0 <= id < |values|
    case Node(id, l, r) =>
      && MinConsistent(l, values) && MinConsistent(r, values)
      && 0 <= id < |values|
      && values[id] == Min(values[l.id], values[r.id])
  }

  /**
   * The arena holds the whole tree `t`: `root` is its root and has no parent, the links and the
   * min invariant hold, and `leafMap` maps each key to its leaf.
   */
  ghost predicate Represents(t: Tree, root: int, leafMap: map<int, int>,
                             values: seq<int>, parents: seq<int>, kinds: seq<NodeKind>)
  {
    && WellFormed(t)
    && |values| == |parents| == |kinds|
    && root == t.id
    && Linked(t, parents, kinds)
    && 0 <= root < |parents| && parents[root] == NoNode
    && MinConsistent(t, values)
    && leafMap == LeafMapOf(t)
  }

  /** `s` is `t` or a subtree of it. */
  ghost predicate SubtreeOf(s: Tree, t: Tree)
  {
    s == t || (t.Node? && (SubtreeOf(s, t.left) || SubtreeOf(s, t.right)))
  }

  /** The indices from the leaf with key `k` up to the root of `t`, bottom-up. */
  ghost function LeafPath(t: Tree, k: int): (p: seq<int>)
    requires k in Keys(t)
    ensures |p| > 0 && p[|p| - 1] == t.id
    ensures forall i :: 0 <= i < |p| ==> p[i] in Ids(t)
  {
    match t
    case Leaf(id, _) => [id]
    case Node(id, l, r) => if k in Keys(l) then LeafPath(l, k) + [id] else LeafPath(r, k) + [id]
  }

  /** The subtree rooted at the lowest common ancestor of the leaves with keys `lk` and `rk`. */
  ghost function SplitTree(t: Tree, lk: int, rk: int): Tree
    requires lk in Keys(t) && rk in Keys(t)
  {
    match t
    case Leaf(_, _) => t
    case Node(_, l, r) =>
      if lk in Keys(l) && rk in Keys(l) then SplitTree(l, lk, rk)
      else if lk in Keys(r) && rk in Keys(r) then SplitTree(r, lk, rk)
      else t
  }

  /**
   * The right siblings collected on the way up from the leaf `k` to the root of `u` when a node
   * counts only if the path continues through its left child AND that child is itself above the
   * leaf: the lowest level, where the left child is the leaf, contributes nothing.
   */
  ghost function RightSubtrees(u: Tree, k: int): seq<Tree>
    requires k in Keys(u)
  {
    match u
    case Leaf(_, _) => []
    case Node(_, l, r) =>
      if k in Keys(l) then RightSubtrees(l, k) + (if l.Node? then [r] else [])
      else RightSubtrees(r, k)
  }

  /** The mirror image of `RightSubtrees`: left siblings of a path that continues through right children. */
  ghost function LeftSubtrees(u: Tree, k: int): seq<Tree>
    requires k in Keys(u)
  {
    match u
    case Leaf(_, _) => []
    case Node(_, l, r) =>
      if k in Keys(r) then LeftSubtrees(r, k) + (if r.Node? then [l] else [])
      else LeftSubtrees(l, k)
  }

  /** The arena indices of a sequence of subtrees. */
  ghost function RootIds(ts: seq<Tree>): seq<int>
  {
    seq(|ts|, i requires 0 <= i < |ts| => ts[i].id)
  }

  /** The elements of `s` before the first occurrence of `x` (all of `s` if `x` does not occur). */
  function TakeUntil(s: seq<int>, x: int): seq<int>
  {
    if s == [] || s[0] == x then [] else [s[0]] + TakeUntil(s[1..], x)
  }

  // ----- Path algebra -----

  lemma {:induction false} TakeUntilFound(a: seq<int>, b: seq<int>, x: int)
    requires x in a
    ensures TakeUntil(a + b, x) == TakeUntil(a, x)
  {
    if a[0] != x {
      assert (a + b)[1..] == a[1..] + b;
      TakeUntilFound(a[1..], b, x);
    }
  }

  lemma {:induction false} TakeUntilMissing(a: seq<int>, b: seq<int>, x: int)
    requires x !in a
    ensures TakeUntil(a + b, x) == a + TakeUntil(b, x)
  {
    if a == [] {
      assert a + b == b;
    } else {
      assert (a + b)[1..] == a[1..] + b;
      TakeUntilMissing(a[1..], b, x);
      assert a == [a[0]] + a[1..];
    }
  }

  /** Extending a prefix of `s` without `x` by the next element, itself not `x`. */
  lemma PrefixStep(s: seq<int>, n: int, x: int)
    requires 0 <= n < |s| && s[n] != x && x !in s[..n]
    ensures s[..n + 1] == s[..n] + [s[n]] && x !in s[..n + 1]
  {
  }

  /** Stopping at the first `x`, or at the end, takes the elements before that point. */
  lemma TakeUntilStop(s: seq<int>, n: int, x: int)
    requires 0 <= n <= |s| && x !in s[..n] && (n == |s| || s[n] == x)
    ensures TakeUntil(s, x) == s[..n]
  {
    assert s == s[..n] + s[n..];
    TakeUntilMissing(s[..n], s[n..], x);
    assert s[..n] + [] == s[..n];
  }

  /** Without `x` in it, the whole sequence is taken. */
  lemma TakeUntilAbsent(a: seq<int>, x: int)
    requires x !in a
    ensures TakeUntil(a, x) == a
  {
    TakeUntilMissing(a, [], x);
    assert a + [] == a;
  }

  // ----- Subtrees -----

  lemma {:induction false} SubtreeTransitive(a: Tree, b: Tree, c: Tree)
    requires SubtreeOf(a, b) && SubtreeOf(b, c)
    ensures SubtreeOf(a, c)
  {
    if b != c {
      if SubtreeOf(b, c.left) {
        SubtreeTransitive(a, b, c.left);
      } else {
        SubtreeTransitive(a, b, c.right);
      }
    }
  }

  /**
   * A subtree keeps what holds of the enclosing tree: distinct indices, key order, arena links,
   * the min invariant; its keys, indices and leaf-map entries are those of the enclosing tree.
   */
  lemma {:induction false} SubtreeInherits(s: Tree, t: Tree, parents: seq<int>, kinds: seq<NodeKind>, values: seq<int>)
    requires SubtreeOf(s, t)
    ensures Keys(s) <= Keys(t) && Ids(s) <= Ids(t)
    ensures Unique(t) ==> Unique(s)
    ensures Ordered(t) ==> Ordered(s)
    ensures Linked(t, parents, kinds) ==> Linked(s, parents, kinds)
    ensures MinConsistent(t, values) ==> MinConsistent(s, values)
    ensures Ordered(t) ==> forall k :: k in Keys(s) ==> LeafMapOf(s)[k] == LeafMapOf(t)[k]
  {
    if s != t {
      var l, r := t.left, t.right;
      if SubtreeOf(s, l) {
        SubtreeInherits(s, l, parents, kinds, values);
        if Ordered(t) {
          forall k | k in Keys(s) ensures LeafMapOf(s)[k] == LeafMapOf(t)[k] {
            assert k !in Keys(r);
          }
        }
      } else {
        SubtreeInherits(s, r, parents, kinds, values);
      }
    }
  }

  // ----- Values -----

  /** Under the min invariant a node's value is the least of its leaves' values, and one of them has it. */
  lemma {:induction false} RootIsLeafMinimum(t: Tree, values: seq<int>)
    requires MinConsistent(t, values) && Ordered(t)
    ensures forall k :: k in Keys(t) ==> 0 <= LeafMapOf(t)[k] < |values| && values[t.id] <= values[LeafMapOf(t)[k]]
    ensures exists k :: k in Keys(t) && values[t.id] == values[LeafMapOf(t)[k]]
  {
    match t
    case Leaf(id, key) =>
      assert key in Keys(t) && values[t.id] == values[LeafMapOf(t)[key]];
    case Node(id, l, r) =>
      RootIsLeafMinimum(l, values);
      RootIsLeafMinimum(r, values);
      SubtreeInherits(l, t, [], [], values);
      SubtreeInherits(r, t, [], [], values);
      if values[l.id] <= values[r.id] {
        var k :| k in Keys(l) && values[l.id] == values[LeafMapOf(l)[k]];
        assert values[t.id] == values[LeafMapOf(t)[k]];
      } else {
        var k :| k in Keys(r) && values[r.id] == values[LeafMapOf(r)[k]];
        assert values[t.id] == values[LeafMapOf(t)[k]];
      }
  }

  // ----- Arena links -----

  lemma {:induction false} LinkedBounds(t: Tree, parents: seq<int>, kinds: seq<NodeKind>)
    requires Linked(t, parents, kinds)
    ensures forall i :: i in Ids(t) ==> 0 <= i < |kinds|
  {
    match t
    case Leaf(_, _) =>
    case Node(_, l, r) =>
      LinkedBounds(l, parents, kinds);
      LinkedBounds(r, parents, kinds);
  }

  /**
   * Every internal node of the tree has two distinct children of the tree that name it as their
   * parent, and every node other than the root is a child of the node it names as parent.
   */
  lemma {:induction false} ParentChildAgree(t: Tree, parents: seq<int>, kinds: seq<NodeKind>)
    requires Linked(t, parents, kinds) && Unique(t) && |parents| == |kinds|
    ensures forall x :: x in Ids(t) ==>
              (0 <= x < |kinds| &&
               (kinds[x].InternalNode? ==>
                 && kinds[x].leftChild in Ids(t) && kinds[x].rightChild in Ids(t)
                 && kinds[x].leftChild != kinds[x].rightChild
                 && 0 <= kinds[x].leftChild < |parents| && parents[kinds[x].leftChild] == x
                 && 0 <= kinds[x].rightChild < |parents| && parents[kinds[x].rightChild] == x))
    ensures forall x :: x in Ids(t) && x != t.id ==>
              && 0 <= x < |parents| && parents[x] in Ids(t)
              && 0 <= parents[x] < |kinds| && kinds[parents[x]].InternalNode?
              && (kinds[parents[x]].leftChild == x || kinds[parents[x]].rightChild == x)
  {
    LinkedBounds(t, parents, kinds);
    match t
    case Leaf(_, _) =>
    case Node(id, l, r) =>
      ParentChildAgree(l, parents, kinds);
      ParentChildAgree(r, parents, kinds);
  }

  /** Links inside `t` survive any change that keeps the children of its nodes and the parents of its non-root nodes. */
  lemma {:induction false} LinkedFrame(t: Tree, parents: seq<int>, kinds: seq<NodeKind>, parents': seq<int>, kinds': seq<NodeKind>)
    requires Linked(t, parents, kinds) && Unique(t)
    requires forall i :: i in Ids(t) ==> 0 <= i < |kinds| && 0 <= i < |kinds'| && kinds'[i] == kinds[i]
    requires forall i :: i in Ids(t) && i != t.id ==> 0 <= i < |parents| && 0 <= i < |parents'| && parents'[i] == parents[i]
    ensures Linked(t, parents', kinds')
  {
    match t
    case Leaf(_, _) =>
    case Node(id, l, r) =>
      LinkedFrame(l, parents, kinds, parents', kinds');
      LinkedFrame(r, parents, kinds, parents', kinds');
  }

  /** The min invariant inside `t` only reads the values of `t`'s nodes. */
  lemma {:induction false} MinFrame(t: Tree, values: seq<int>, values': seq<int>)
    requires MinConsistent(t, values)
    requires forall i :: i in Ids(t) ==> 0 <= i < |values| && 0 <= i < |values'| && values'[i] == values[i]
    ensures MinConsistent(t, values')
  {
    match t
    case Leaf(id, _) =>
      assert id in Ids(t);
    case Node(id, l, r) =>
      MinFrame(l, values, values');
      MinFrame(r, values, values');
  }

  // ----- Leaf paths -----

  /** The path starts at the leaf recorded for `k` and has at most one node per level. */
  lemma {:induction false} LeafPathEnds(t: Tree, k: int)
    requires Ordered(t) && k in Keys(t)
    ensures LeafPath(t, k)[0] == LeafMapOf(t)[k]
    ensures |LeafPath(t, k)| <= Height(t) + 1
  {
    match t
    case Leaf(_, _) =>
    case Node(id, l, r) =>
      if k in Keys(l) {
        LeafPathEnds(l, k);
        SubtreeInherits(l, t, [], [], []);
      } else {
        LeafPathEnds(r, k);
        SubtreeInherits(r, t, [], [], []);
      }
  }

  /** No node occurs twice on a leaf path. */
  lemma {:induction false} LeafPathDistinct(t: Tree, k: int)
    requires Unique(t) && k in Keys(t)
    ensures forall i, j :: 0 <= i < j < |LeafPath(t, k)| ==> LeafPath(t, k)[i] != LeafPath(t, k)[j]
  {
    match t
    case Leaf(_, _) =>
    case Node(id, l, r) =>
      if k in Keys(l) { LeafPathDistinct(l, k); } else { LeafPathDistinct(r, k); }
  }

  /**
   * Following parent links from the leaf walks exactly the path; its first node is a leaf node,
   * every later one is internal and has the previous one as a child.
   */
  lemma {:induction false} LeafPathLinks(t: Tree, k: int, parents: seq<int>, kinds: seq<NodeKind>)
    requires Linked(t, parents, kinds) && k in Keys(t)
    ensures var p := LeafPath(t, k);
      && (forall i :: 0 <= i < |p| ==> 0 <= p[i] < |kinds|)
      && kinds[p[0]] == LeafNode
      && (forall i :: 0 <= i < |p| - 1 ==> 0 <= p[i] < |parents| && parents[p[i]] == p[i + 1])
      && (forall i :: 1 <= i < |p| ==> kinds[p[i]].InternalNode? &&
                                       (kinds[p[i]].leftChild == p[i - 1] || kinds[p[i]].rightChild == p[i - 1]))
  {
    LinkedBounds(t, parents, kinds);
    match t
    case Leaf(_, _) =>
    case Node(id, l, r) =>
      if k in Keys(l) { LeafPathLinks(l, k, parents, kinds); } else { LeafPathLinks(r, k, parents, kinds); }
  }

  /** Following parent links from the leaf of `k` visits exactly `LeafPath(t, k)`. */
  lemma LeafPathUp(t: Tree, k: int, parents: seq<int>, kinds: seq<NodeKind>)
    requires Linked(t, parents, kinds) && |parents| == |kinds| && k in Keys(t)
    ensures var p := LeafPath(t, k);
      && (forall i :: 0 <= i < |p| ==> 0 <= p[i] < |parents|)
      && (forall i :: 0 <= i < |p| - 1 ==> parents[p[i]] == p[i + 1])
  {
    LeafPathLinks(t, k, parents, kinds);
  }

  // ----- The split node -----

  /**
   * The split subtree contains both leaves; for one key it is that key's leaf, for two keys in
   * order it is internal with the left key under its left child and the right key under its right.
   */
  lemma {:induction false} SplitTreeFacts(t: Tree, lk: int, rk: int)
    requires lk in Keys(t) && rk in Keys(t)
    ensures SubtreeOf(SplitTree(t, lk, rk), t)
    ensures lk in Keys(SplitTree(t, lk, rk)) && rk in Keys(SplitTree(t, lk, rk))
    ensures lk == rk ==> SplitTree(t, lk, rk) == Leaf(SplitTree(t, lk, rk).id, lk)
    ensures Ordered(t) && lk == rk ==> SplitTree(t, lk, rk).id == LeafMapOf(t)[lk]
    ensures Ordered(t) && lk < rk ==>
              var s := SplitTree(t, lk, rk);
              s.Node? && lk in Keys(s.left) && rk in Keys(s.right)
  {
    match t
    case Leaf(_, _) =>
    case Node(_, l, r) =>
      if lk in Keys(l) && rk in Keys(l) {
        SplitTreeFacts(l, lk, rk);
      } else if lk in Keys(r) && rk in Keys(r) {
        SplitTreeFacts(r, lk, rk);
      }
      var s := SplitTree(t, lk, rk);
      if Ordered(t) && lk == rk {
        SubtreeInherits(s, t, [], [], []);
      }
  }

  /** Above the leaf, the path of `k` in a node is the path in the child holding `k`, then the node. */
  lemma LeafPathTail(t: Tree, k: int)
    requires t.Node? && k in Keys(t)
    ensures k in Keys(t.left) ==> LeafPath(t, k)[1..] == LeafPath(t.left, k)[1..] + [t.id]
    ensures k !in Keys(t.left) ==> k in Keys(t.right) && LeafPath(t, k)[1..] == LeafPath(t.right, k)[1..] + [t.id]
  {
  }

  /** A node is not on the path of any key inside one of its children. */
  lemma NodeOffChildPath(t: Tree, k: int)
    requires t.Node? && Unique(t) && k in Keys(t)
    ensures k in Keys(t.left) ==> t.id !in LeafPath(t.left, k)[1..]
    ensures k in Keys(t.right) ==> t.id !in LeafPath(t.right, k)[1..]
  {
    if k in Keys(t.left) {
      var p := LeafPath(t.left, k);
      forall x | 0 <= x < |p[1..]| ensures p[1..][x] != t.id {
        assert p[1..][x] == p[x + 1] && p[x + 1] in Ids(t.left);
      }
    }
    if k in Keys(t.right) {
      var p := LeafPath(t.right, k);
      forall x | 0 <= x < |p[1..]| ensures p[1..][x] != t.id {
        assert p[1..][x] == p[x + 1] && p[x + 1] in Ids(t.right);
      }
    }
  }

  /** The split node lies strictly above both leaves when the keys differ. */
  lemma {:induction false} SplitAboveLeaves(t: Tree, lk: int, rk: int)
    requires Ordered(t) && lk in Keys(t) && rk in Keys(t) && lk != rk
    ensures SplitTree(t, lk, rk).id in LeafPath(t, lk)[1..]
    ensures SplitTree(t, lk, rk).id in LeafPath(t, rk)[1..]
  {
    match t
    case Node(id, l, r) =>
      LeafPathTail(t, lk);
      LeafPathTail(t, rk);
      if lk in Keys(l) && rk in Keys(l) {
        SplitAboveLeaves(l, lk, rk);
      } else if lk in Keys(r) && rk in Keys(r) {
        assert lk !in Keys(l) && rk !in Keys(l);
        SplitAboveLeaves(r, lk, rk);
      }
  }

  /**
   * The walk of `computeSplitNode`: going up from the right leaf, the first node that is also on
   * the left leaf's path is the split node.
   */
  lemma {:induction false} SplitWalk(t: Tree, lk: int, rk: int)
    requires WellFormed(t) && lk in Keys(t) && rk in Keys(t)
    ensures SplitTree(t, lk, rk).id in LeafPath(t, lk)
    ensures exists j :: 0 <= j < |LeafPath(t, rk)| && LeafPath(t, rk)[j] == SplitTree(t, lk, rk).id &&
                        forall x :: 0 <= x < j ==> LeafPath(t, rk)[x] !in LeafPath(t, lk)
  {
    var a, b, s := LeafPath(t, lk), LeafPath(t, rk), SplitTree(t, lk, rk).id;
    match t
    case Leaf(_, _) =>
      assert b[0] == s;
    case Node(id, l, r) =>
      if lk in Keys(l) && rk in Keys(l) {
        SplitWalk(l, lk, rk);
        var j :| 0 <= j < |LeafPath(l, rk)| && LeafPath(l, rk)[j] == s &&
                 forall x :: 0 <= x < j ==> LeafPath(l, rk)[x] !in LeafPath(l, lk);
        assert b[j] == s;
      } else if lk in Keys(r) && rk in Keys(r) {
        assert lk !in Keys(l) && rk !in Keys(l);
        SplitWalk(r, lk, rk);
        var j :| 0 <= j < |LeafPath(r, rk)| && LeafPath(r, rk)[j] == s &&
                 forall x :: 0 <= x < j ==> LeafPath(r, rk)[x] !in LeafPath(r, lk);
        assert b[j] == s;
      } else {
        var j := |b| - 1;
        assert b[j] == s;
        forall x | 0 <= x < j ensures b[x] !in a {
          if lk in Keys(l) {
            assert rk !in Keys(l);
            assert b[x] in Ids(r);
          } else {
            assert rk in Keys(l);
            assert b[x] in Ids(l);
          }
        }
      }
  }

  /** The open path of `getPath` from the left leaf to the split node is the path inside the split's left subtree. */
  lemma {:induction false} LeftOpenPath(t: Tree, lk: int, rk: int)
    requires WellFormed(t) && lk in Keys(t) && rk in Keys(t) && lk < rk
    ensures SplitTree(t, lk, rk).Node? && lk in Keys(SplitTree(t, lk, rk).left)
    ensures TakeUntil(LeafPath(t, lk)[1..], SplitTree(t, lk, rk).id) == LeafPath(SplitTree(t, lk, rk).left, lk)[1..]
  {
    SplitTreeFacts(t, lk, rk);
    var s := SplitTree(t, lk, rk).id;
    match t
    case Node(id, l, r) =>
      LeafPathTail(t, lk);
      if lk in Keys(l) && rk in Keys(l) {
        LeftOpenPath(l, lk, rk);
        SplitAboveLeaves(l, lk, rk);
        TakeUntilFound(LeafPath(l, lk)[1..], [id], s);
      } else if lk in Keys(r) && rk in Keys(r) {
        assert lk !in Keys(l);
        LeftOpenPath(r, lk, rk);
        SplitAboveLeaves(r, lk, rk);
        TakeUntilFound(LeafPath(r, lk)[1..], [id], s);
      } else {
        assert lk in Keys(l);
        NodeOffChildPath(t, lk);
        TakeUntilMissing(LeafPath(l, lk)[1..], [id], id);
      }
  }


  /** The open path of `getPath` from the right leaf to the split node is the path inside the split's right subtree. */
  lemma {:induction false} RightOpenPath(t: Tree, lk: int, rk: int)
    requires WellFormed(t) && lk in Keys(t) && rk in Keys(t) && lk < rk
    ensures SplitTree(t, lk, rk).Node? && rk in Keys(SplitTree(t, lk, rk).right)
    ensures TakeUntil(LeafPath(t, rk)[1..], SplitTree(t, lk, rk).id) == LeafPath(SplitTree(t, lk, rk).right, rk)[1..]
  {
    SplitTreeFacts(t, lk, rk);
    var s := SplitTree(t, lk, rk).id;
    match t
    case Node(id, l, r) =>
      LeafPathTail(t, rk);
      if lk in Keys(l) && rk in Keys(l) {
        RightOpenPath(l, lk, rk);
        SplitAboveLeaves(l, lk, rk);
        TakeUntilFound(LeafPath(l, rk)[1..], [id], s);
      } else if lk in Keys(r) && rk in Keys(r) {
        assert rk !in Keys(l);
        RightOpenPath(r, lk, rk);
        SplitAboveLeaves(r, lk, rk);
        TakeUntilFound(LeafPath(r, rk)[1..], [id], s);
      } else {
        assert rk in Keys(r) && rk !in Keys(l);
        NodeOffChildPath(t, rk);
        TakeUntilMissing(LeafPath(r, rk)[1..], [id], id);
      }
  }


  // ----- Sibling subtrees -----

  /** Each right sibling collected on the left leaf's path is a subtree whose keys all exceed the leaf's key. */
  lemma {:induction false} RightSubtreesAbove(u: Tree, k: int)
    requires Ordered(u) && k in Keys(u)
    ensures forall i :: 0 <= i < |RightSubtrees(u, k)| ==>
              SubtreeOf(RightSubtrees(u, k)[i], u) && forall x :: x in Keys(RightSubtrees(u, k)[i]) ==> k < x
  {
    match u
    case Leaf(_, _) =>
    case Node(_, l, r) =>
      if k in Keys(l) {
        RightSubtreesAbove(l, k);
      } else {
        RightSubtreesAbove(r, k);
      }
  }

  /** Each left sibling collected on the right leaf's path is a subtree whose keys are all below the leaf's key. */
  lemma {:induction false} LeftSubtreesBelow(u: Tree, k: int)
    requires Ordered(u) && k in Keys(u)
    ensures forall i :: 0 <= i < |LeftSubtrees(u, k)| ==>
              SubtreeOf(LeftSubtrees(u, k)[i], u) && forall x :: x in Keys(LeftSubtrees(u, k)[i]) ==> x < k
  {
    match u
    case Leaf(_, _) =>
    case Node(_, l, r) =>
      if k in Keys(r) {
        assert k !in Keys(l);
        LeftSubtreesBelow(r, k);
      } else {
        LeftSubtreesBelow(l, k);
      }
  }
}

/**
 * Value-level model of the binary search tree of tree.js. A `Tree` value is
 * the shape and contents of the node graph hanging from one `Node`; the
 * functions below are the recursive "return the new subtree" algorithms of
 * the source, and the lemmas state what they guarantee.
 */
module TreeModel {
  import opened SortedSets

  /** `Nil` is JavaScript's `null` child; a `Node` holds a value and two children. */
  datatype Tree = Nil | Node(left: Tree, value: int, right: Tree)

  /** One step from a node to its left or to its right child. */
  datatype Dir = L | R

  function Max(a: int, b: int): int {
    if a < b then b else a
  }

  function Abs(a: int): int {
    if a < 0 then -a else a
  }

  /** The set of values stored in a tree. */
  function Elements(t: Tree): set<int> {
    match t
    case Nil => {}
    case Node(l, x, r) => Elements(l) + {x} + Elements(r)
  }

  /** The number of nodes of a tree. */
  function Size(t: Tree): nat {
    match t
    case Nil => 0
    case Node(l, _, r) => Size(l) + 1 + Size(r)
  }

  /**
   * The ordering invariant: every value in a left subtree is strictly less
   * than the node's value and every value in a right subtree strictly greater.
   */
  predicate IsBst(t: Tree) {
    match t
    case Nil => true
    case Node(l, x, r) =>
      IsBst(l) && IsBst(r) &&
      (forall y :: y in Elements(l) ==> y < x) &&
      (forall y :: y in Elements(r) ==> x < y)
  }

  // ---------------------------------------------------------------------------
  // Depth-first traversals, as the sequence of values handed to the visitor

  /** Left subtree, node, right subtree. */
  function InOrder(t: Tree): (s: seq<int>)
    ensures |s| == Size(t)
  {
    match t
    case Nil => []
    case Node(l, x, r) => InOrder(l) + [x] + InOrder(r)
  }

  /** Node, left subtree, right subtree. */
  function PreOrder(t: Tree): (s: seq<int>)
    ensures |s| == Size(t)
  {
    match t
    case Nil => []
    case Node(l, x, r) => [x] + PreOrder(l) + PreOrder(r)
  }

  /** Left subtree, right subtree, node. */
  function PostOrder(t: Tree): (s: seq<int>)
    ensures |s| == Size(t)
  {
    match t
    case Nil => []
    case Node(l, x, r) => PostOrder(l) + PostOrder(r) + [x]
  }

  // ---------------------------------------------------------------------------
  // Shape: paths, height, balance

  /** The subtree reached from the root of `t` by following the steps of `p`; `Nil` once a step leaves the tree. */
  function Subtree(t: Tree, p: seq<Dir>): Tree
    decreases |p|
  {
    if p == [] then t
    else match t
      case Nil => Nil
      case Node(l, _, r) => Subtree(if p[0] == L then l else r, p[1..])
  }

  /** Edges on the longest downward path; -1 for the empty tree. */
  function Height(t: Tree): (h: int)
    ensures h >= -1
    ensures h == -1 <==> t == Nil
  {
    match t
    case Nil => -1
    case Node(l, _, r) => 1 + Max(Height(l), Height(r))
  }

  /** The heights of the two subtrees of this one node differ by at most 1. */
  predicate LocallyBalanced(t: Tree) {
    t.Node? ==> -1 <= Height(t.left) - Height(t.right) <= 1
  }

  /** Balance in the sense of `isBalanced`: locally balanced at the root and, recursively, in both subtrees. */
  predicate Balanced(t: Tree) {
    match t
    case Nil => true
    case Node(l, _, r) => Balanced(l) && Balanced(r) && LocallyBalanced(t)
  }

  // ---------------------------------------------------------------------------
  // Insert, findMin, delete

  /**
   * `insert(value, root)`: descend by comparison and attach a fresh leaf at the
   * empty child slot; a value equal to a node's value falls through both
   * comparisons and leaves the tree as it was.
   */
  function Insert(t: Tree, v: int): (r: Tree)
    ensures Elements(r) == Elements(t) + {v}
    ensures IsBst(t) ==> IsBst(r)
    ensures IsBst(t) && v in Elements(t) ==> r == t
  {
    match t
    case Nil => Node(Nil, v, Nil)
    case Node(l, x, rt) =>
      if v < x then Node(Insert(l, v), x, rt)
      else if v > x then Node(l, x, Insert(rt, v))
      else t
  }

  /** `findMin(node)`: the value of the leftmost node. */
  function Min(t: Tree): (m: int)
    requires t != Nil
    ensures m in Elements(t)
    ensures IsBst(t) ==> forall y :: y in Elements(t) ==> m <= y
  {
    if t.left == Nil then t.value else Min(t.left)
  }

  /**
   * `delete(value, root)`: descend by comparison; a matching node with at most
   * one child is replaced by that child, one with two children takes the value
   * of its in-order successor, which is then deleted from the right subtree.
   */
  function Delete(t: Tree, v: int): (r: Tree)
    ensures Elements(r) <= Elements(t)
    ensures IsBst(t) ==> IsBst(r) && Elements(r) == Elements(t) - {v}
    ensures v !in Elements(t) ==> r == t
  {
    match t
    case Nil => Nil
    case Node(l, x, rt) =>
      if v < x then Node(Delete(l, v), x, rt)
      else if v > x then Node(l, x, Delete(rt, v))
      else if l == Nil then rt
      else if rt == Nil then l
      else
        var m := Min(rt);
        var d := Delete(rt, m);
        assert IsBst(t) ==> IsBst(Node(l, m, d)) && Elements(Node(l, m, d)) == Elements(t) - {v} by {
          if IsBst(t) {
            assert x < m;
            assert forall y :: y in Elements(d) ==> m < y;
            assert x !in Elements(l) && x !in Elements(rt);
          }
        }
        Node(l, m, d)
  }

  // ---------------------------------------------------------------------------
  // buildTree

  /**
   * `buildTree(array, start, end)` over a normalised array: the middle element
   * `floor((start + end) / 2)` becomes the node, the two halves its subtrees.
   */
  function BuildRange(a: seq<int>, start: int, end: int): (t: Tree)
    requires 0 <= start <= end + 1 <= |a|
    ensures start > end <==> t == Nil
    ensures Size(t) == end - start + 1
    ensures MidpointShaped(t)
    decreases end - start + 1
  {
    if start > end then Nil
    else
      var mid := (start + end) / 2;
      Node(BuildRange(a, start, mid - 1), a[mid], BuildRange(a, mid + 1, end))
  }

  /** The midpoint split lists the range's elements in order. */
  lemma {:induction false} BuildRangeInOrder(a: seq<int>, start: int, end: int)
    requires 0 <= start <= end + 1 <= |a|
    ensures InOrder(BuildRange(a, start, end)) == a[start..end + 1]
    decreases end - start + 1
  {
    if start <= end {
      var mid := BuildRangeSplit(a, start, end);
      var l, r := BuildRange(a, start, mid - 1), BuildRange(a, mid + 1, end);
      BuildRangeInOrder(a, start, mid - 1);
      BuildRangeInOrder(a, mid + 1, end);
      assert InOrder(l) == a[start..mid];
      assert InOrder(Node(l, a[mid], r)) == InOrder(l) + [a[mid]] + InOrder(r);
      SliceAround(a, start, mid, end);
    }
  }

  /** A slice is its part before `mid`, the element at `mid` and its part after. */
  lemma SliceAround(a: seq<int>, start: int, mid: int, end: int)
    requires 0 <= start <= mid <= end < |a|
    ensures a[start..end + 1] == a[start..mid] + [a[mid]] + a[mid + 1..end + 1]
  {
  }

  /** Top-level `buildTree(array)`: remove duplicates, sort, then split at midpoints. */
  function Build(values: seq<int>): (t: Tree)
    ensures InOrder(t) == SortedDistinct(values)
    ensures IsBst(t)
    ensures Balanced(t)
    ensures values == [] <==> t == Nil
  {
    var sorted := SortedDistinct(values);
    var t := BuildRange(sorted, 0, |sorted| - 1);
    BuildRangeInOrder(sorted, 0, |sorted| - 1);
    BstIffSorted(t);
    MidpointShapedHeight(t);
    assert values != [] ==> values[0] in Elems(sorted);
    t
  }

  /** `rebalance()`: collect the values in order and build afresh from them. */
  function Rebalanced(t: Tree): (r: Tree)
    ensures IsBst(t) ==> InOrder(r) == InOrder(t)
    ensures IsBst(r) && Balanced(r)
    ensures Elements(r) == Elements(t)
  {
    var r := Build(InOrder(t));
    if IsBst(t) then
      BstIffSorted(t);
      SortedDistinctOfSorted(InOrder(t));
      InOrderElements(t);
      InOrderElements(r);
      r
    else
      InOrderElements(t);
      InOrderElements(r);
      r
  }

  /** The height `buildTree` reaches over `n` distinct values: floor(log2 n), and -1 for none. */
  function MinHeight(n: nat): int {
    if n == 0 then -1 else 1 + MinHeight(n / 2)
  }

  // ---------------------------------------------------------------------------
  // Lemmas

  /** In an ordered tree, a value below the root can only be on the left, one above it only on the right. */
  lemma SearchStep(t: Tree, v: int)
    requires t.Node?
    ensures IsBst(t) && v < t.value ==> (v in Elements(t) <==> v in Elements(t.left))
    ensures IsBst(t) && v > t.value ==> (v in Elements(t) <==> v in Elements(t.right))
  {
  }

  /** The in-order sequence lists each value of the tree, one entry per node. */
  lemma {:induction false} InOrderElements(t: Tree)
    ensures Elems(InOrder(t)) == Elements(t)
    ensures |InOrder(t)| == Size(t)
  {
    match t
    case Nil =>
    case Node(l, x, r) =>
      InOrderElements(l);
      InOrderElements(r);
      assert Elems(InOrder(t)) == Elems(InOrder(l)) + {x} + Elems(InOrder(r));
  }

  /** A tree is ordered exactly when its in-order sequence is ascending without repeats. */
  lemma {:induction false} BstIffSorted(t: Tree)
    ensures IsBst(t) <==> StrictlyIncreasing(InOrder(t))
  {
    match t
    case Nil =>
    case Node(l, x, r) =>
      BstIffSorted(l);
      BstIffSorted(r);
      InOrderElements(l);
      InOrderElements(r);
      JoinIncreasing(InOrder(l), x, InOrder(r));
  }

  /** The three depth-first orders hand the visitor the same values, each as often. */
  lemma {:induction false} TraversalsPermute(t: Tree)
    ensures multiset(PreOrder(t)) == multiset(InOrder(t))
    ensures multiset(PostOrder(t)) == multiset(InOrder(t))
  {
    match t
    case Nil =>
    case Node(l, x, r) =>
      TraversalsPermute(l);
      TraversalsPermute(r);
  }

  /** `findMin` yields the first value of the in-order sequence, the in-order successor of everything before the subtree. */
  lemma {:induction false} MinIsFirstInOrder(t: Tree)
    requires t != Nil
    ensures InOrder(t) != [] && InOrder(t)[0] == Min(t)
  {
    if t.left != Nil {
      MinIsFirstInOrder(t.left);
    }
  }

  /** In an ordered tree the two-child node's successor is the next value after it in order. */
  lemma SuccessorFollowsInOrder(l: Tree, x: int, rt: Tree)
    requires IsBst(Node(l, x, rt)) && rt != Nil
    ensures |InOrder(Node(l, x, rt))| > |InOrder(l)| + 1
    ensures InOrder(Node(l, x, rt))[|InOrder(l)| + 1] == Min(rt)
  {
    MinIsFirstInOrder(rt);
  }

  /** No path reaches further down than the height. */
  lemma {:induction false} PathsWithinHeight(t: Tree, p: seq<Dir>)
    requires Subtree(t, p) != Nil
    ensures |p| <= Height(t)
    decreases |p|
  {
    match t
    case Nil =>
    case Node(l, _, r) =>
      if p != [] {
        PathsWithinHeight(if p[0] == L then l else r, p[1..]);
      }
  }

  /** Some path of exactly the height's length ends at a leaf. */
  lemma {:induction false} DeepestLeaf(t: Tree) returns (p: seq<Dir>)
    requires t != Nil
    ensures Subtree(t, p) != Nil && Subtree(t, p).left == Nil && Subtree(t, p).right == Nil
    ensures |p| == Height(t)
  {
    if t.left == Nil && t.right == Nil {
      p := [];
    } else if Height(t.left) >= Height(t.right) {
      var q := DeepestLeaf(t.left);
      p := [L] + q;
      assert p[1..] == q;
    } else {
      var q := DeepestLeaf(t.right);
      p := [R] + q;
      assert p[1..] == q;
    }
  }

  /** Balance holds exactly when every node reachable by some path is locally balanced. */
  lemma BalancedEveryNode(t: Tree)
    ensures Balanced(t) <==> forall p :: LocallyBalanced(Subtree(t, p))
  {
    if Balanced(t) {
      BalancedAtEveryPath(t);
    } else {
      var p := UnbalancedNode(t);
    }
  }

  lemma {:induction false} BalancedAtEveryPath(t: Tree)
    requires Balanced(t)
    ensures forall p :: LocallyBalanced(Subtree(t, p))
  {
    match t
    case Nil =>
      forall p ensures LocallyBalanced(Subtree(t, p)) {
        if p != [] {
          assert Subtree(t, p) == Nil;
        }
      }
    case Node(l, _, r) =>
      BalancedAtEveryPath(l);
      BalancedAtEveryPath(r);
      forall p ensures LocallyBalanced(Subtree(t, p)) {
        if p == [] {
          assert Subtree(t, p) == t;
        } else if p[0] == L {
          assert Subtree(t, p) == Subtree(l, p[1..]);
        } else {
          assert Subtree(t, p) == Subtree(r, p[1..]);
        }
      }
  }

  /** An unbalanced tree has a path to a node whose subtree heights differ by more than one. */
  lemma {:induction false} UnbalancedNode(t: Tree) returns (p: seq<Dir>)
    requires !Balanced(t)
    ensures !LocallyBalanced(Subtree(t, p))
  {
    match t
    case Node(l, _, r) =>
      if !Balanced(l) {
        var q := UnbalancedNode(l);
        p := [L] + q;
        assert p[1..] == q;
      } else if !Balanced(r) {
        var q := UnbalancedNode(r);
        p := [R] + q;
        assert p[1..] == q;
      } else {
        p := [];
      }
  }

  /** One more value raises the midpoint height by zero or one. */
  lemma {:induction false} MinHeightStep(m: nat)
    ensures MinHeight(m) <= MinHeight(m + 1) <= MinHeight(m) + 1
  {
    if m > 0 {
      var h, h1 := m / 2, (m + 1) / 2;
      assert MinHeight(m) == 1 + MinHeight(h);
      assert MinHeight(m + 1) == 1 + MinHeight(h1);
      if h1 != h {
        assert h1 == h + 1;
        MinHeightStep(h);
      }
    }
  }

  /** The midpoint height never decreases with more values. */
  lemma {:induction false} MinHeightMonotone(a: nat, b: nat)
    requires a <= b
    ensures MinHeight(a) <= MinHeight(b)
    decreases b - a
  {
    if a < b {
      MinHeightStep(a);
      MinHeightMonotone(a + 1, b);
    }
  }

  /** One step of the midpoint split, and the sizes of the two halves it leaves. */
  lemma BuildRangeSplit(a: seq<int>, start: int, end: int) returns (mid: int)
    requires 0 <= start <= end < |a|
    ensures start <= mid <= end
    ensures mid - start <= end - mid <= mid - start + 1
    ensures BuildRange(a, start, end) == Node(BuildRange(a, start, mid - 1), a[mid], BuildRange(a, mid + 1, end))
  {
    mid := (start + end) / 2;
  }

  /** Two halves of sizes `k1 <= k2 <= k1 + 1` around one node: the midpoint height of the whole. */
  lemma MinHeightSplit(k1: nat, k2: nat, n: nat)
    requires k1 <= k2 <= k1 + 1 && n == k1 + k2 + 1
    ensures MinHeight(n) == 1 + MinHeight(k2)
    ensures MinHeight(k1) <= MinHeight(k2) <= MinHeight(k1) + 1
  {
    assert n / 2 == k2;
    assert MinHeight(n) == 1 + MinHeight(k2);
    if k1 != k2 {
      MinHeightStep(k1);
    }
  }

  /** Every node of a midpoint-split tree has a right half as big as its left half or one bigger. */
  predicate MidpointShaped(t: Tree) {
    match t
    case Nil => true
    case Node(l, _, r) =>
      MidpointShaped(l) && MidpointShaped(r) && Size(l) <= Size(r) <= Size(l) + 1
  }

  /** A midpoint-shaped tree has the midpoint height of its size and is balanced. */
  lemma {:induction false} MidpointShapedHeight(t: Tree)
    requires MidpointShaped(t)
    ensures Height(t) == MinHeight(Size(t))
    ensures Balanced(t)
  {
    match t
    case Nil =>
    case Node(l, _, r) =>
      MidpointShapedHeight(l);
      MidpointShapedHeight(r);
      MinHeightSplit(Size(l), Size(r), Size(t));
  }

  /** `buildTree` over `n` distinct values reaches the midpoint height of `n`. */
  lemma BuildHeight(values: seq<int>)
    ensures Height(Build(values)) == MinHeight(|SortedDistinct(values)|)
  {
    var sorted := SortedDistinct(values);
    var t := BuildRange(sorted, 0, |sorted| - 1);
    assert Build(values) == t;
    assert Size(t) == |sorted|;
    MidpointShapedHeight(t);
  }

  /** No tree with `Size(t)` nodes is lower than the midpoint-split one. */
  lemma {:induction false} MinHeightIsMinimal(t: Tree)
    ensures MinHeight(Size(t)) <= Height(t)
  {
    match t
    case Nil =>
    case Node(l, _, r) =>
      MinHeightIsMinimal(l);
      MinHeightIsMinimal(r);
      var n := Size(t);
      var big := if Size(l) < Size(r) then r else l;
      assert n / 2 <= Size(big);
      MinHeightMonotone(n / 2, Size(big));
  }

  /** `buildTree` looks only at the distinct sorted values of its input. */
  lemma BuildOfNormalForm(x: seq<int>, y: seq<int>)
    requires SortedDistinct(x) == SortedDistinct(y)
    ensures Build(x) == Build(y)
  {
    var sx, sy := SortedDistinct(x), SortedDistinct(y);
    assert Build(x) == BuildRange(sx, 0, |sx| - 1);
    assert Build(y) == BuildRange(sy, 0, |sy| - 1);
  }

  /** Rebalancing an already rebalanced tree changes nothing. */
  lemma RebalanceIdempotent(t: Tree)
    ensures Rebalanced(Rebalanced(t)) == Rebalanced(t)
  {
    var s := InOrder(t);
    SortedDistinctIdempotent(s);
    BuildOfNormalForm(InOrder(Build(s)), s);
  }
}

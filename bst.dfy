/**
 * The heap-level binary search tree of tree.js: `Node` objects linked through
 * `leftChildren` and `rightChildren`, and the `Tree` class holding `root`.
 * Each node carries, as ghost state, the set of nodes hanging from it and the
 * `TreeModel.Tree` value it represents; every operation is proved against its
 * value-level counterpart.
 */
module Bst {
  import TM = TreeModel
  import LM = LevelModel
  import opened SortedSets

  /** A tree node: a value and two possibly absent children. */
  class Node {
    var value: int
    var leftChildren: Node?
    var rightChildren: Node?

    /** The nodes of the subtree rooted here, this one included. */
    ghost var Repr: set<Node>
    /** The subtree rooted here, as a value. */
    ghost var Model: TM.Tree

    /**
     * The subtree rooted here is a proper tree: the two children own disjoint
     * sets of nodes, neither reaches back to this node, and `Model` is the
     * value read off the links.
     */
    ghost predicate Valid()
      reads this, Repr
      ensures Valid() ==> this in Repr && Model.Node? && Model.value == value
      decreases Repr
    {
      this in Repr &&
      (leftChildren != null ==>
        leftChildren in Repr && leftChildren.Repr <= Repr && this !in leftChildren.Repr && leftChildren.Valid()) &&
      (rightChildren != null ==>
        rightChildren in Repr && rightChildren.Repr <= Repr && this !in rightChildren.Repr && rightChildren.Valid()) &&
      ReprOf(leftChildren) !! ReprOf(rightChildren) &&
      Repr == {this} + ReprOf(leftChildren) + ReprOf(rightChildren) &&
      Model == TM.Node(ModelOf(leftChildren), value, ModelOf(rightChildren))
    }

    /** `new Node(value)`: a leaf. */
    constructor(value: int)
      ensures Valid() && fresh(Repr)
      ensures Model == TM.Node(TM.Nil, value, TM.Nil)
      ensures leftChildren == null && rightChildren == null
    {
      this.value := value;
      leftChildren := null;
      rightChildren := null;
      Repr := {this};
      Model := TM.Node(TM.Nil, value, TM.Nil);
    }

    /**
     * `this.leftChildren = n`, for a proper subtree `n` that neither contains
     * this node nor shares a node with the right subtree.
     */
    method SetLeft(n: Node?)
      requires ValidOrNull(n) && ValidOrNull(rightChildren)
      requires this !in ReprOf(n) && this !in ReprOf(rightChildren)
      requires ReprOf(n) !! ReprOf(rightChildren)
      modifies this
      ensures Valid()
      ensures value == old(value) && leftChildren == n && rightChildren == old(rightChildren)
      ensures Repr == {this} + old(ReprOf(n)) + old(ReprOf(rightChildren))
      ensures Model == TM.Node(old(ModelOf(n)), value, old(ModelOf(rightChildren)))
    {
      leftChildren := n;
      Repr := {this} + ReprOf(leftChildren) + ReprOf(rightChildren);
      Model := TM.Node(ModelOf(leftChildren), value, ModelOf(rightChildren));
    }

    /** `this.value = v`, keeping both subtrees. */
    method SetValue(v: int)
      requires Valid()
      modifies this
      ensures Valid()
      ensures value == v && leftChildren == old(leftChildren) && rightChildren == old(rightChildren)
      ensures Repr == old(Repr)
      ensures Model == TM.Node(old(Model).left, v, old(Model).right)
    {
      value := v;
      Model := TM.Node(ModelOf(leftChildren), value, ModelOf(rightChildren));
    }

    /** `this.rightChildren = n`, the mirror image of `SetLeft`. */
    method SetRight(n: Node?)
      requires ValidOrNull(leftChildren) && ValidOrNull(n)
      requires this !in ReprOf(leftChildren) && this !in ReprOf(n)
      requires ReprOf(leftChildren) !! ReprOf(n)
      modifies this
      ensures Valid()
      ensures value == old(value) && leftChildren == old(leftChildren) && rightChildren == n
      ensures Repr == {this} + old(ReprOf(leftChildren)) + old(ReprOf(n))
      ensures Model == TM.Node(old(ModelOf(leftChildren)), value, old(ModelOf(n)))
    {
      rightChildren := n;
      Repr := {this} + ReprOf(leftChildren) + ReprOf(rightChildren);
      Model := TM.Node(ModelOf(leftChildren), value, ModelOf(rightChildren));
    }
  }

  /** The nodes of the subtree at `n`; none for `null`. */
  ghost function ReprOf(n: Node?): set<Node>
    reads n
  {
    if n == null then {} else n.Repr
  }

  /** The subtree at `n` as a value; `Nil` for `null`. */
  ghost function ModelOf(n: Node?): TM.Tree
    reads n
  {
    if n == null then TM.Nil else n.Model
  }

  /** `null`, or the root of a proper subtree. */
  ghost predicate ValidOrNull(n: Node?)
    reads n, ReprOf(n)
  {
    n != null ==> n.Valid()
  }

  /** What a proper subtree says about its two children. */
  lemma ChildFacts(n: Node)
    requires n.Valid()
    ensures ValidOrNull(n.leftChildren) && ValidOrNull(n.rightChildren)
    ensures n !in ReprOf(n.leftChildren) && n !in ReprOf(n.rightChildren)
    ensures ReprOf(n.leftChildren) !! ReprOf(n.rightChildren)
    ensures n.Repr == {n} + ReprOf(n.leftChildren) + ReprOf(n.rightChildren)
    ensures n.Model == TM.Node(ModelOf(n.leftChildren), n.value, ModelOf(n.rightChildren))
  {
  }

  /** The values of the visited nodes, in visiting order; a `null` visit contributes none. */
  function Values(s: seq<Node?>): seq<int>
    reads s
  {
    if s == [] then []
    else Values(s[..|s| - 1]) + (if s[|s| - 1] == null then [] else [s[|s| - 1].value])
  }

  lemma {:induction false} ValuesConcat(a: seq<Node?>, b: seq<Node?>)
    ensures Values(a + b) == Values(a) + Values(b)
    decreases |b|
  {
    if b == [] {
      assert a + b == a;
    } else {
      assert (a + b)[..|a + b| - 1] == a + b[..|b| - 1];
      ValuesConcat(a, b[..|b| - 1]);
    }
  }

  /** The set of visited nodes. */
  ghost function NodeSet(s: seq<Node>): set<Node> {
    if s == [] then {} else NodeSet(s[..|s| - 1]) + {s[|s| - 1]}
  }

  /** No node is visited twice. */
  ghost predicate Distinct(s: seq<Node>) {
    s == [] || (Distinct(s[..|s| - 1]) && s[|s| - 1] !in NodeSet(s[..|s| - 1]))
  }

  /** Every node of `nodes` is visited, once, and nothing else is. */
  ghost predicate VisitsEach(s: seq<Node>, nodes: set<Node>) {
    Distinct(s) && NodeSet(s) == nodes
  }

  /** Visiting `s` hands over exactly the nodes at its positions, and a duplicate-free one never repeats a position's node. */
  lemma {:induction false} NodeSetAt(s: seq<Node>)
    ensures forall i :: 0 <= i < |s| ==> s[i] in NodeSet(s)
    ensures forall n :: n in NodeSet(s) ==> n in s
    ensures Distinct(s) <==> (forall i, j :: 0 <= i < j < |s| ==> s[i] != s[j])
    decreases |s|
  {
    if s != [] {
      var front := s[..|s| - 1];
      NodeSetAt(front);
      assert forall i :: 0 <= i < |front| ==> s[i] == front[i];
    }
  }

  /** Two visit sequences: the nodes of one after the other, which repeat none when neither does and they share none. */
  lemma {:induction false} NodeSetConcat(a: seq<Node>, b: seq<Node>)
    ensures NodeSet(a + b) == NodeSet(a) + NodeSet(b)
    ensures Distinct(a) && Distinct(b) && NodeSet(a) !! NodeSet(b) ==> Distinct(a + b)
    decreases |b|
  {
    if b == [] {
      assert a + b == a;
    } else {
      assert (a + b)[..|a + b| - 1] == a + b[..|b| - 1];
      NodeSetConcat(a, b[..|b| - 1]);
    }
  }

  /** Three visits of pairwise disjoint node sets, one after the other: their values and nodes add up. */
  lemma VisitsJoin3(a: seq<Node>, b: seq<Node>, c: seq<Node>, sa: set<Node>, sb: set<Node>, sc: set<Node>)
    requires VisitsEach(a, sa) && VisitsEach(b, sb) && VisitsEach(c, sc)
    requires sa !! sb && sa !! sc && sb !! sc
    ensures VisitsEach(a + b + c, sa + sb + sc)
    ensures Values(a + b + c) == Values(a) + Values(b) + Values(c)
  {
    NodeSetConcat(a, b);
    NodeSetConcat(a + b, c);
    ValuesConcat(a, b);
    ValuesConcat(a + b, c);
  }

  /** One node's step of the in-order traversal: the children's visits and its own make up its subtree's. */
  lemma InOrderStep(root: Node, l: seq<Node>, r: seq<Node>)
    requires root.Valid()
    requires Values(l) == TM.InOrder(ModelOf(root.leftChildren)) && VisitsEach(l, ReprOf(root.leftChildren))
    requires Values(r) == TM.InOrder(ModelOf(root.rightChildren)) && VisitsEach(r, ReprOf(root.rightChildren))
    ensures Values(l + [root] + r) == TM.InOrder(root.Model) && VisitsEach(l + [root] + r, root.Repr)
  {
    ChildFacts(root);
    VisitsOne(root);
    VisitsJoin3(l, [root], r, ReprOf(root.leftChildren), {root}, ReprOf(root.rightChildren));
  }

  /** One node's step of the pre-order traversal: the children's visits and its own make up its subtree's. */
  lemma PreOrderStep(root: Node, l: seq<Node>, r: seq<Node>)
    requires root.Valid()
    requires Values(l) == TM.PreOrder(ModelOf(root.leftChildren)) && VisitsEach(l, ReprOf(root.leftChildren))
    requires Values(r) == TM.PreOrder(ModelOf(root.rightChildren)) && VisitsEach(r, ReprOf(root.rightChildren))
    ensures Values([root] + l + r) == TM.PreOrder(root.Model) && VisitsEach([root] + l + r, root.Repr)
  {
    ChildFacts(root);
    VisitsOne(root);
    VisitsJoin3([root], l, r, {root}, ReprOf(root.leftChildren), ReprOf(root.rightChildren));
  }

  /** One node's step of the post-order traversal: the children's visits and its own make up its subtree's. */
  lemma PostOrderStep(root: Node, l: seq<Node>, r: seq<Node>)
    requires root.Valid()
    requires Values(l) == TM.PostOrder(ModelOf(root.leftChildren)) && VisitsEach(l, ReprOf(root.leftChildren))
    requires Values(r) == TM.PostOrder(ModelOf(root.rightChildren)) && VisitsEach(r, ReprOf(root.rightChildren))
    ensures Values(l + r + [root]) == TM.PostOrder(root.Model) && VisitsEach(l + r + [root], root.Repr)
  {
    ChildFacts(root);
    VisitsOne(root);
    VisitsJoin3(l, r, [root], ReprOf(root.leftChildren), ReprOf(root.rightChildren), {root});
  }

  /** Visiting one node. */
  lemma VisitsOne(n: Node)
    ensures VisitsEach([n], {n}) && Values([n]) == [n.value]
  {
    assert [n][..0] == [];
  }

  /** A queue of nodes as the queue of the subtrees they root; `null` stands for an empty one. */
  ghost function QueueModel(q: seq<Node?>): LM.Queue
    reads q
  {
    if q == [] then LM.Empty else LM.Cons(ModelOf(q[0]), QueueModel(q[1..]))
  }

  lemma {:induction false} QueueModelConcat(a: seq<Node?>, b: seq<Node?>)
    ensures QueueModel(a + b) == LM.Append(QueueModel(a), QueueModel(b))
  {
    if a == [] {
      assert a + b == b;
    } else {
      assert (a + b)[0] == a[0] && (a + b)[1..] == a[1..] + b;
      QueueModelConcat(a[1..], b);
    }
  }

  /** The children `levelOrder` pushes for a node: the left one, then the right one, when present. */
  ghost function Pushed(n: Node): seq<Node?>
    reads n
  {
    (if n.leftChildren != null then [n.leftChildren] else []) +
    (if n.rightChildren != null then [n.rightChildren] else [])
  }

  /**
   * The queue `q` after the two pushes of `levelOrder` for node `n`, spelt as
   * the loop performs them; it exists to give the loop's shape to `ServeStep`.
   */
  ghost function AfterPush(q: seq<Node?>, n: Node): (r: seq<Node?>)
    reads n
    ensures r == q + Pushed(n)
  {
    var q1 := if n.leftChildren != null then q + [n.leftChildren] else q;
    if n.rightChildren != null then q1 + [n.rightChildren] else q1
  }

  /** Every queued entry is a proper subtree within `nodes`. */
  ghost predicate QueueWithin(q: seq<Node?>, nodes: set<Node>)
    reads q, nodes
  {
    forall i :: 0 <= i < |q| ==> q[i] != null && q[i] in nodes && q[i].Repr <= nodes && q[i].Valid()
  }

  /** Every visit is a node of `nodes`. */
  ghost predicate VisitsWithin(s: seq<Node?>, nodes: set<Node>) {
    forall i :: 0 <= i < |s| ==> s[i] != null && s[i] in nodes
  }

  /**
   * One step of `levelOrder`: the front node of `queue` is served and its
   * children are queued. The level order of the queue loses exactly that
   * node's value at its front, and the queue stays within `nodes`.
   */
  lemma ServeStep(queue: seq<Node?>, queue': seq<Node?>, nodes: set<Node>)
    requires queue != [] && QueueWithin(queue, nodes)
    requires queue[0] != null && queue' == AfterPush(queue[1..], queue[0])
    ensures queue[0] in nodes && QueueWithin(queue', nodes)
    ensures LM.Bfs(QueueModel(queue)) == [queue[0].value] + LM.Bfs(QueueModel(queue'))
    ensures LM.QueueSize(QueueModel(queue)) == 1 + LM.QueueSize(QueueModel(queue'))
  {
    var n := queue[0];
    assert n in nodes && n.Repr <= nodes && n.Valid();
    ServeWithin(queue, nodes);
    ServeModel(queue);
    LM.ServeFront(n.Model, QueueModel(queue[1..]));
  }

  lemma ServeWithin(queue: seq<Node?>, nodes: set<Node>)
    requires queue != [] && QueueWithin(queue, nodes)
    ensures queue[0] != null && QueueWithin(queue[1..] + Pushed(queue[0]), nodes)
  {
    var n := queue[0];
    assert n != null && n in nodes && n.Repr <= nodes && n.Valid();
    ChildFacts(n);
    assert QueueWithin(queue[1..], nodes);
    assert QueueWithin(Pushed(n), nodes);
    QueueWithinConcat(queue[1..], Pushed(n), nodes);
  }

  /** The queue before and after a step, as subtree queues. */
  lemma ServeModel(queue: seq<Node?>)
    requires queue != [] && queue[0] != null && queue[0].Valid()
    ensures QueueModel(queue) == LM.Cons(queue[0].Model, QueueModel(queue[1..]))
    ensures QueueModel(queue[1..] + Pushed(queue[0])) == LM.Append(QueueModel(queue[1..]), LM.Kids(queue[0].Model))
  {
    var n := queue[0];
    PushedKids(n);
    QueueModelConcat(queue[1..], Pushed(n));
  }

  /** The children `levelOrder` pushes for a node are those of its subtree. */
  lemma PushedKids(n: Node)
    requires n.Valid()
    ensures QueueModel(Pushed(n)) == LM.Kids(n.Model)
  {
    ChildFacts(n);
    var l := if n.leftChildren != null then [n.leftChildren] else [];
    var r := if n.rightChildren != null then [n.rightChildren] else [];
    QueueModelConcat(l, r);
    assert QueueModel(r) == if n.rightChildren != null then LM.Cons(n.rightChildren.Model, LM.Empty) else LM.Empty;
  }

  lemma QueueWithinConcat(a: seq<Node?>, b: seq<Node?>, nodes: set<Node>)
    requires QueueWithin(a, nodes) && QueueWithin(b, nodes)
    ensures QueueWithin(a + b, nodes)
  {
    forall i | 0 <= i < |a + b|
      ensures (a + b)[i] != null && (a + b)[i] in nodes && (a + b)[i].Repr <= nodes && (a + b)[i].Valid()
    {
      if i < |a| {
        assert (a + b)[i] == a[i];
      } else {
        assert (a + b)[i] == b[i - |a|];
      }
    }
  }

  /**
   * A visit appended to a visit sequence within `nodes`: its value moves from
   * the front of what is still to be visited, `rest`, to the end of the visits.
   */
  lemma VisitsSnoc(s: seq<Node?>, n: Node, nodes: set<Node>, rest: seq<int>)
    requires VisitsWithin(s, nodes) && n in nodes
    ensures VisitsWithin(s + [n], nodes)
    ensures Values(s + [n]) + rest == Values(s) + ([n.value] + rest)
  {
    assert (s + [n])[..|s|] == s;
    assert Values(s + [n]) == Values(s) + [n.value];
  }

  /** The node reached from `n` by following the child links named by `p`; `null` once a link is missing. */
  ghost function Follow(n: Node?, p: seq<TM.Dir>): (m: Node?)
    requires ValidOrNull(n)
    reads ReprOf(n)
    ensures m != null ==> m in ReprOf(n) && m.Valid() && m.Model == TM.Subtree(ModelOf(n), p)
    ensures m == null ==> TM.Subtree(ModelOf(n), p) == TM.Nil
    decreases |p|
  {
    if p == [] then n
    else if n == null then null
    else Follow(if p[0] == TM.L then n.leftChildren else n.rightChildren, p[1..])
  }

  /** The steps leading from `root` down to `node`, one of its nodes. */
  ghost function PathTo(root: Node, node: Node): (p: seq<TM.Dir>)
    requires root.Valid() && node in root.Repr
    reads root.Repr
    ensures Follow(root, p) == node
    decreases root.Repr
  {
    if node == root then []
    else if root.leftChildren != null && node in root.leftChildren.Repr then [TM.L] + PathTo(root.leftChildren, node)
    else [TM.R] + PathTo(root.rightChildren, node)
  }

  /** Nodes are reached by exactly one path: the one `PathTo` names. */
  lemma {:induction false} PathUnique(root: Node, node: Node, p: seq<TM.Dir>)
    requires root.Valid() && node in root.Repr
    requires Follow(root, p) == node
    ensures p == PathTo(root, node)
    decreases |p|
  {
    if p != [] {
      var child := if p[0] == TM.L then root.leftChildren else root.rightChildren;
      assert child != null && node in child.Repr;
      assert node != root;
      PathUnique(child, node, p[1..]);
      assert p == [p[0]] + p[1..];
    }
  }

  /** Why a traversal stopped early. */
  datatype Error =
    | CallbackRequired  // `typeof callback !== "function"`: thrown before any visit
    | NullDereference   // a visited `null` was asked for its children

  /** A traversal: the nodes handed to the callback, in order, and how it ended. */
  datatype Outcome<T> = Done(visits: seq<T>) | Failed(error: Error, visits: seq<T>)

  /** What `checkBalance` returns for a subtree. */
  datatype BalanceReport = BalanceReport(balanced: bool, height: int)

  class Tree {
    /** The `array` the tree was constructed from, as given. */
    var initial: seq<int>
    var root: Node?
    ghost var Repr: set<object>

    /** `root` is `null` or a proper tree, and that tree is ordered. */
    ghost predicate Valid()
      reads this, Repr
    {
      this in Repr &&
      (root != null ==> root in Repr && root.Repr <= Repr && root.Valid()) &&
      Repr == {this} + ReprOf(root) &&
      TM.IsBst(Model())
    }

    /** The tree as a value. */
    ghost function Model(): TM.Tree
      reads this, root
    {
      ModelOf(root)
    }

    /**
     * `buildTree(array, start, end)` over a normalised array: a fresh node for
     * the middle element, then the left half and the right half below it.
     */
    static method BuildRange(a: seq<int>, start: int, end: int) returns (r: Node?)
      requires 0 <= start <= end + 1 <= |a|
      ensures ValidOrNull(r) && fresh(ReprOf(r))
      ensures ModelOf(r) == TM.BuildRange(a, start, end)
      decreases end - start + 1, 0
    {
      if start > end {
        return null;
      }
      var mid := (start + end) / 2;
      assert TM.BuildRange(a, start, end) == TM.Node(TM.BuildRange(a, start, mid - 1), a[mid], TM.BuildRange(a, mid + 1, end));
      var node := new Node(a[mid]);
      BuildLeft(a, start, mid, node);
      BuildRight(a, mid, end, node);
      r := node;
    }

    /** `node.leftChildren = this.buildTree(array, start, mid - 1)`. */
    static method BuildLeft(a: seq<int>, start: int, mid: int, node: Node)
      requires 0 <= start <= mid < |a|
      requires node.Valid() && node.leftChildren == null
      modifies node
      ensures node.Valid()
      ensures node.Model == TM.Node(TM.BuildRange(a, start, mid - 1), old(node.value), old(node.Model).right)
      ensures old(node.Repr) <= node.Repr && fresh(node.Repr - old(node.Repr))
      decreases mid - start, 1
    {
      var l := BuildRange(a, start, mid - 1);
      node.SetLeft(l);
    }

    /** `node.rightChildren = this.buildTree(array, mid + 1, end)`. */
    static method BuildRight(a: seq<int>, mid: int, end: int, node: Node)
      requires 0 <= mid <= end < |a|
      requires node.Valid() && node.rightChildren == null
      modifies node
      ensures node.Valid()
      ensures node.Model == TM.Node(old(node.Model).left, old(node.value), TM.BuildRange(a, mid + 1, end))
      ensures old(node.Repr) <= node.Repr && fresh(node.Repr - old(node.Repr))
      decreases end - mid, 1
    {
      var rt := BuildRange(a, mid + 1, end);
      node.SetRight(rt);
    }

    /** Top-level `buildTree(array)`: remove duplicates, sort, then build over the whole range. */
    static method BuildTree(values: seq<int>) returns (r: Node?)
      ensures ValidOrNull(r) && fresh(ReprOf(r))
      ensures ModelOf(r) == TM.Build(values)
    {
      var sorted := SortedDistinct(values);
      r := BuildRange(sorted, 0, |sorted| - 1);
    }

    /** `new Tree(array)`: keep the array and build the tree from it. */
    constructor(values: seq<int>)
      ensures Valid() && fresh(Repr)
      ensures initial == values
      ensures Model() == TM.Build(values)
    {
      initial := values;
      var r := BuildTree(values);
      root := r;
      Repr := {this} + ReprOf(r);
    }

    /**
     * `insert(value, root)`: descend by comparison to an empty child slot and
     * hang a fresh leaf there, relinking each child on the way back up; a value
     * already present changes nothing. The given root, when there is one, is
     * the root returned.
     */
    static method InsertAt(value: int, root: Node?) returns (r: Node)
      requires ValidOrNull(root)
      modifies ReprOf(root)
      ensures r.Valid()
      ensures r.Model == TM.Insert(old(ModelOf(root)), value)
      ensures root != null ==> r == root
      ensures old(ReprOf(root)) <= r.Repr
      ensures fresh(r.Repr - old(ReprOf(root)))
      decreases ReprOf(root), 1
    {
      if root == null {
        r := new Node(value);
        return;
      }
      if value < root.value {
        InsertIntoLeft(value, root);
      } else if value > root.value {
        InsertIntoRight(value, root);
      }
      r := root;
    }

    /** `root.leftChildren = this.insert(value, root.leftChildren)`. */
    static method InsertIntoLeft(value: int, root: Node)
      requires root.Valid()
      modifies root.Repr
      ensures root.Valid()
      ensures root.Model == TM.Node(TM.Insert(old(root.Model).left, value), old(root.value), old(root.Model).right)
      ensures old(root.Repr) <= root.Repr
      ensures fresh(root.Repr - old(root.Repr))
      decreases root.Repr, 0
    {
      ghost var oldL, oldR := ReprOf(root.leftChildren), ReprOf(root.rightChildren);
      assert ValidOrNull(root.leftChildren) && ValidOrNull(root.rightChildren);
      var l := InsertAt(value, root.leftChildren);
      assert ValidOrNull(root.rightChildren) && ReprOf(root.rightChildren) == oldR;
      assert root !in l.Repr && l.Repr !! oldR;
      root.SetLeft(l);
    }

    /** `root.rightChildren = this.insert(value, root.rightChildren)`. */
    static method InsertIntoRight(value: int, root: Node)
      requires root.Valid()
      modifies root.Repr
      ensures root.Valid()
      ensures root.Model == TM.Node(old(root.Model).left, old(root.value), TM.Insert(old(root.Model).right, value))
      ensures old(root.Repr) <= root.Repr
      ensures fresh(root.Repr - old(root.Repr))
      decreases root.Repr, 0
    {
      ghost var oldL, oldR := ReprOf(root.leftChildren), ReprOf(root.rightChildren);
      assert ValidOrNull(root.leftChildren) && ValidOrNull(root.rightChildren);
      var rt := InsertAt(value, root.rightChildren);
      assert ValidOrNull(root.leftChildren) && ReprOf(root.leftChildren) == oldL;
      assert root !in rt.Repr && rt.Repr !! oldL;
      root.SetRight(rt);
    }

    /**
     * `delete(value, root)`: descend by comparison; a matching node with at
     * most one child is replaced by that child (nothing is changed then), one
     * with two children takes over the value of its in-order successor, which
     * is then deleted from the right subtree. Returns the new subtree root.
     */
    static method DeleteAt(value: int, root: Node?) returns (r: Node?)
      requires ValidOrNull(root)
      modifies ReprOf(root)
      ensures ValidOrNull(r)
      ensures ModelOf(r) == TM.Delete(old(ModelOf(root)), value)
      ensures ReprOf(r) <= old(ReprOf(root))
      ensures r != root <==>
        (root != null && old(root.value) == value && (old(root.leftChildren) == null || old(root.rightChildren) == null))
      ensures r != root ==> unchanged(old(ReprOf(root)))
      decreases ReprOf(root), 2
    {
      if root == null {
        return root;
      }
      if value < root.value {
        DeleteFromLeft(value, root);
      } else if value > root.value {
        DeleteFromRight(value, root);
      } else {
        if root.leftChildren == null {
          return root.rightChildren;
        }
        if root.rightChildren == null {
          return root.leftChildren;
        }
        DeleteSuccessor(root);
      }
      r := root;
    }

    /** `root.leftChildren = this.delete(value, root.leftChildren)`. */
    static method DeleteFromLeft(value: int, root: Node)
      requires root.Valid()
      modifies root.Repr
      ensures root.Valid()
      ensures root.Model == TM.Node(TM.Delete(old(root.Model).left, value), old(root.value), old(root.Model).right)
      ensures root.Repr <= old(root.Repr)
      decreases root.Repr, 0
    {
      ghost var oldL, oldR := ReprOf(root.leftChildren), ReprOf(root.rightChildren);
      assert ValidOrNull(root.leftChildren) && ValidOrNull(root.rightChildren);
      var l := DeleteAt(value, root.leftChildren);
      assert ValidOrNull(root.rightChildren) && ReprOf(root.rightChildren) == oldR;
      assert root !in ReprOf(l) && ReprOf(l) !! oldR;
      root.SetLeft(l);
    }

    /** `root.rightChildren = this.delete(value, root.rightChildren)`. */
    static method DeleteFromRight(value: int, root: Node)
      requires root.Valid()
      modifies root.Repr
      ensures root.Valid()
      ensures root.Model == TM.Node(old(root.Model).left, old(root.value), TM.Delete(old(root.Model).right, value))
      ensures root.Repr <= old(root.Repr)
      decreases root.Repr, 0
    {
      ghost var oldL, oldR := ReprOf(root.leftChildren), ReprOf(root.rightChildren);
      assert ValidOrNull(root.leftChildren) && ValidOrNull(root.rightChildren);
      var rt := DeleteAt(value, root.rightChildren);
      assert ValidOrNull(root.leftChildren) && ReprOf(root.leftChildren) == oldL;
      assert root !in ReprOf(rt) && ReprOf(rt) !! oldL;
      root.SetRight(rt);
    }

    /**
     * The two-child case: copy the value of the leftmost node of the right
     * subtree into `root`, then delete that value from the right subtree.
     */
    static method DeleteSuccessor(root: Node)
      requires root.Valid() && root.leftChildren != null && root.rightChildren != null
      modifies root.Repr
      ensures root.Valid()
      ensures var rt := old(root.Model).right;
        rt.Node? && root.Model == TM.Node(old(root.Model).left, TM.Min(rt), TM.Delete(rt, TM.Min(rt)))
      ensures root.Repr <= old(root.Repr)
      decreases root.Repr, 1
    {
      var minNode := FindMin(root.rightChildren);
      root.SetValue(minNode.value);
      DeleteFromRight(minNode.value, root);
    }

    /** `findMin(node)`: follow left links down to the node without a left child. */
    static method FindMin(node: Node) returns (m: Node)
      requires node.Valid()
      ensures m in node.Repr && m.Valid() && m.leftChildren == null
      ensures m.value == TM.Min(node.Model)
    {
      m := node;
      while m.leftChildren != null
        invariant m in node.Repr && m.Repr <= node.Repr && m.Valid()
        invariant TM.Min(m.Model) == TM.Min(node.Model)
        decreases m.Repr
      {
        m := m.leftChildren;
      }
    }

    /**
     * `find(value, root)`: stop at a node holding `value`, otherwise descend
     * to the side the comparison points to.
     */
    static function FindAt(value: int, root: Node?): (r: Node?)
      requires ValidOrNull(root)
      reads ReprOf(root)
      ensures r != null ==> r in ReprOf(root) && r.value == value && value in TM.Elements(ModelOf(root))
      ensures TM.IsBst(ModelOf(root)) && value in TM.Elements(ModelOf(root)) ==> r != null
      decreases ReprOf(root)
    {
      if root == null then null
      else
        ChildFacts(root);
        TM.SearchStep(ModelOf(root), value);
        if value == root.value then root
        else if value < root.value then FindAt(value, root.leftChildren)
        else FindAt(value, root.rightChildren)
    }

    /** The nodes `inOrder` hands to its callback, in order: left subtree, node, right subtree. */
    static function InOrderVisits(root: Node?): (s: seq<Node>)
      requires ValidOrNull(root)
      reads ReprOf(root)
      ensures Values(s) == TM.InOrder(ModelOf(root))
      ensures VisitsEach(s, ReprOf(root))
      decreases ReprOf(root)
    {
      if root == null then []
      else
        ChildFacts(root);
        var l, r := InOrderVisits(root.leftChildren), InOrderVisits(root.rightChildren);
        InOrderStep(root, l, r);
        l + [root] + r
    }

    /** `inOrder(callback, root)`: the guard on the callback, then the visits. */
    static function InOrderAt(callbackIsFunction: bool, root: Node?): (o: Outcome<Node>)
      requires ValidOrNull(root)
      reads ReprOf(root)
      ensures !callbackIsFunction ==> o == Failed(CallbackRequired, [])
      ensures callbackIsFunction ==> o.Done? && Values(o.visits) == TM.InOrder(ModelOf(root))
      ensures callbackIsFunction ==> VisitsEach(o.visits, ReprOf(root))
    {
      if !callbackIsFunction then Failed(CallbackRequired, []) else Done(InOrderVisits(root))
    }

    /** The nodes `preOrder` hands to its callback, in order: node, left subtree, right subtree. */
    static function PreOrderVisits(root: Node?): (s: seq<Node>)
      requires ValidOrNull(root)
      reads ReprOf(root)
      ensures Values(s) == TM.PreOrder(ModelOf(root))
      ensures VisitsEach(s, ReprOf(root))
      decreases ReprOf(root)
    {
      if root == null then []
      else
        ChildFacts(root);
        var l, r := PreOrderVisits(root.leftChildren), PreOrderVisits(root.rightChildren);
        PreOrderStep(root, l, r);
        [root] + l + r
    }

    /** `preOrder(callback, root)`: the guard on the callback, then the visits. */
    static function PreOrderAt(callbackIsFunction: bool, root: Node?): (o: Outcome<Node>)
      requires ValidOrNull(root)
      reads ReprOf(root)
      ensures !callbackIsFunction ==> o == Failed(CallbackRequired, [])
      ensures callbackIsFunction ==> o.Done? && Values(o.visits) == TM.PreOrder(ModelOf(root))
      ensures callbackIsFunction ==> VisitsEach(o.visits, ReprOf(root))
    {
      if !callbackIsFunction then Failed(CallbackRequired, []) else Done(PreOrderVisits(root))
    }

    /** The nodes `postOrder` hands to its callback, in order: left subtree, right subtree, node. */
    static function PostOrderVisits(root: Node?): (s: seq<Node>)
      requires ValidOrNull(root)
      reads ReprOf(root)
      ensures Values(s) == TM.PostOrder(ModelOf(root))
      ensures VisitsEach(s, ReprOf(root))
      decreases ReprOf(root)
    {
      if root == null then []
      else
        ChildFacts(root);
        var l, r := PostOrderVisits(root.leftChildren), PostOrderVisits(root.rightChildren);
        PostOrderStep(root, l, r);
        l + r + [root]
    }

    /** `postOrder(callback, root)`: the guard on the callback, then the visits. */
    static function PostOrderAt(callbackIsFunction: bool, root: Node?): (o: Outcome<Node>)
      requires ValidOrNull(root)
      reads ReprOf(root)
      ensures !callbackIsFunction ==> o == Failed(CallbackRequired, [])
      ensures callbackIsFunction ==> o.Done? && Values(o.visits) == TM.PostOrder(ModelOf(root))
      ensures callbackIsFunction ==> VisitsEach(o.visits, ReprOf(root))
    {
      if !callbackIsFunction then Failed(CallbackRequired, []) else Done(PostOrderVisits(root))
    }

    /** `height(node)`: -1 for `null`, 0 for a leaf, else one more than the taller child. */
    static function Height(node: Node?): (h: int)
      requires ValidOrNull(node)
      reads ReprOf(node)
      ensures h == TM.Height(ModelOf(node))
      decreases ReprOf(node)
    {
      if node == null then -1
      else if node.leftChildren == null && node.rightChildren == null then 0
      else 1 + TM.Max(Height(node.leftChildren), Height(node.rightChildren))
    }

    /**
     * `depth(node, root, currentDepth)`: `currentDepth` at `node` itself, the
     * first answer other than -1 from the left and then the right subtree
     * (each one level deeper), and -1 when neither holds `node`.
     */
    static function DepthAt(node: Node?, root: Node?, currentDepth: int): (d: int)
      requires ValidOrNull(root)
      reads ReprOf(root)
      ensures currentDepth >= 0 ==> (d == -1 <==> node == null || node !in ReprOf(root))
      ensures currentDepth >= 0 && d != -1 ==>
        node != null && root != null && node in root.Repr && d == currentDepth + |PathTo(root, node)|
      decreases ReprOf(root)
    {
      if node == null || root == null then -1
      else if node == root then currentDepth
      else
        var leftDepth := if root.leftChildren != null then DepthAt(node, root.leftChildren, currentDepth + 1) else -1;
        if leftDepth != -1 then leftDepth
        else if root.rightChildren != null then DepthAt(node, root.rightChildren, currentDepth + 1)
        else -1
    }

    /**
     * `checkBalance(node)`: a subtree is reported balanced, with its height,
     * when both children are and their heights differ by at most one;
     * otherwise it is reported unbalanced with height 0.
     */
    static function CheckBalance(node: Node?): (b: BalanceReport)
      requires ValidOrNull(node)
      reads ReprOf(node)
      ensures b.balanced == TM.Balanced(ModelOf(node))
      ensures b.balanced ==> b.height == TM.Height(ModelOf(node))
      ensures !b.balanced ==> b.height == 0
      decreases ReprOf(node)
    {
      if node == null then BalanceReport(true, -1)
      else
        var left := CheckBalance(node.leftChildren);
        var right := CheckBalance(node.rightChildren);
        if !left.balanced || !right.balanced then BalanceReport(false, 0)
        else if TM.Abs(left.height - right.height) > 1 then BalanceReport(false, 0)
        else BalanceReport(true, 1 + TM.Max(left.height, right.height))
    }

    // -------------------------------------------------------------------------
    // The public methods, whose `root` parameter defaults to `this.root`

    /**
     * `tree.insert(value)`: the node returned is not stored back into
     * `this.root`, so inserting into an empty tree leaves it empty.
     */
    method Insert(value: int) returns (r: Node)
      requires Valid()
      modifies Repr
      ensures Valid() && fresh(Repr - old(Repr))
      ensures root == old(root) && initial == old(initial)
      ensures Model() == if old(root) == null then TM.Nil else TM.Insert(old(Model()), value)
      ensures r.Model == TM.Insert(old(Model()), value)
    {
      r := InsertAt(value, root);
      Repr := {this} + ReprOf(root);
    }

    /**
     * `tree.delete(value)`: the node returned is not stored back into
     * `this.root`, so deleting the value of a root with at most one child
     * changes nothing.
     */
    method Delete(value: int) returns (r: Node?)
      requires Valid()
      modifies Repr
      ensures Valid() && Repr <= old(Repr)
      ensures root == old(root) && initial == old(initial)
      ensures var m := old(Model());
        Model() == if m.Node? && m.value == value && (m.left == TM.Nil || m.right == TM.Nil) then m else TM.Delete(m, value)
      ensures ModelOf(r) == TM.Delete(old(Model()), value)
    {
      r := DeleteAt(value, root);
      Repr := {this} + ReprOf(root);
    }

    /** `tree.find(value)`: the node holding `value`, `null` when there is none. */
    function Find(value: int): (r: Node?)
      requires Valid()
      reads Repr
      ensures r != null <==> value in TM.Elements(Model())
      ensures r != null ==> r in ReprOf(root) && r.value == value
    {
      FindAt(value, root)
    }

    /** `tree.inOrder(callback)`. */
    function InOrder(callbackIsFunction: bool): (o: Outcome<Node>)
      requires Valid()
      reads Repr
      ensures !callbackIsFunction ==> o == Failed(CallbackRequired, [])
      ensures callbackIsFunction ==> o.Done? && Values(o.visits) == TM.InOrder(Model())
      ensures callbackIsFunction ==> StrictlyIncreasing(Values(o.visits))
      ensures callbackIsFunction ==> VisitsEach(o.visits, ReprOf(root))
    {
      TM.BstIffSorted(Model());
      InOrderAt(callbackIsFunction, root)
    }

    /** `tree.preOrder(callback)`. */
    function PreOrder(callbackIsFunction: bool): (o: Outcome<Node>)
      requires Valid()
      reads Repr
      ensures !callbackIsFunction ==> o == Failed(CallbackRequired, [])
      ensures callbackIsFunction ==> o.Done? && Values(o.visits) == TM.PreOrder(Model())
      ensures callbackIsFunction ==> VisitsEach(o.visits, ReprOf(root))
    {
      PreOrderAt(callbackIsFunction, root)
    }

    /** `tree.postOrder(callback)`. */
    function PostOrder(callbackIsFunction: bool): (o: Outcome<Node>)
      requires Valid()
      reads Repr
      ensures !callbackIsFunction ==> o == Failed(CallbackRequired, [])
      ensures callbackIsFunction ==> o.Done? && Values(o.visits) == TM.PostOrder(Model())
      ensures callbackIsFunction ==> VisitsEach(o.visits, ReprOf(root))
    {
      PostOrderAt(callbackIsFunction, root)
    }

    /** `tree.depth(node)`: the number of links from `this.root` down to `node`, -1 when it is not in the tree. */
    function Depth(node: Node?): (d: int)
      requires Valid()
      reads Repr
      ensures d == -1 <==> node == null || node !in ReprOf(root)
      ensures d != -1 ==> node != null && root != null && node in root.Repr && d == |PathTo(root, node)|
    {
      DepthAt(node, root, 0)
    }

    /** `tree.isBalanced()`. */
    function IsBalanced(): (b: bool)
      requires Valid()
      reads Repr
      ensures b == TM.Balanced(Model())
    {
      CheckBalance(root).balanced
    }

    /**
     * `tree.levelOrder(callback)`: serve the queue `[this.root]` from the front,
     * handing each node to the callback and putting its children at the back.
     * On an empty tree the callback receives `null`, and asking it for its
     * children then fails.
     */
    method LevelOrder(callbackIsFunction: bool) returns (o: Outcome<Node?>)
      requires Valid()
      ensures !callbackIsFunction ==> o == Failed(CallbackRequired, [])
      ensures callbackIsFunction && root == null ==> o == Failed(NullDereference, [null])
      ensures callbackIsFunction && root != null ==>
        o.Done? && Values(o.visits) == LM.Bfs(LM.Cons(Model(), LM.Empty)) && |o.visits| == TM.Size(Model())
      ensures callbackIsFunction && root != null ==> VisitsWithin(o.visits, root.Repr)
    {
      if !callbackIsFunction {
        return Failed(CallbackRequired, []);
      }
      if root == null {
        // the first node served is `null`: handed to the callback, then asked for its children
        return Failed(NullDereference, [null]);
      }
      var queue: seq<Node?> := [root];
      var visits: seq<Node?> := [];
      while queue != []
        invariant QueueWithin(queue, root.Repr) && VisitsWithin(visits, root.Repr)
        invariant Values(visits) + LM.Bfs(QueueModel(queue)) == LM.Bfs(LM.Cons(Model(), LM.Empty))
        invariant |visits| + LM.QueueSize(QueueModel(queue)) == TM.Size(Model())
        decreases LM.QueueSize(QueueModel(queue))
      {
        ghost var queue0, visits0 := queue, visits;
        var node := queue[0];
        queue := queue[1..];
        visits := visits + [node];
        if node.leftChildren != null {
          queue := queue + [node.leftChildren];
        }
        if node.rightChildren != null {
          queue := queue + [node.rightChildren];
        }
        ServeStep(queue0, queue, root.Repr);
        VisitsSnoc(visits0, node, root.Repr, LM.Bfs(QueueModel(queue)));
      }
      o := Done(visits);
    }

    /**
     * `tree.rebalance()`: collect the values in order through `inOrder`, then
     * replace the whole tree by one newly built from them.
     */
    method Rebalance()
      requires Valid()
      modifies this
      ensures Valid() && fresh(ReprOf(root))
      ensures initial == old(initial)
      ensures Model() == TM.Rebalanced(old(Model()))
    {
      var r := Rebuild(root);
      SetRoot(r);
    }

    /** `this.root = r`, for a proper ordered subtree `r`. */
    method SetRoot(r: Node?)
      requires ValidOrNull(r) && TM.IsBst(ModelOf(r))
      modifies this
      ensures Valid() && root == r && Repr == {this} + ReprOf(r)
      ensures initial == old(initial)
    {
      root, Repr := r, {this} + ReprOf(r);
    }

    /** The body of `rebalance` up to the final assignment: a new tree from the in-order values. */
    static method Rebuild(root: Node?) returns (r: Node?)
      requires ValidOrNull(root)
      ensures ValidOrNull(r) && fresh(ReprOf(r))
      ensures ModelOf(r) == TM.Rebalanced(ModelOf(root))
    {
      ghost var t := ModelOf(root);
      var visits := InOrderAt(true, root).visits;
      assert Values(visits) == TM.InOrder(t);
      var sortedArray := PushValues(visits);
      assert sortedArray == TM.InOrder(t);
      r := BuildTree(sortedArray);
    }

    /** The callback of `rebalance` run over the visits: `sortedArray.push(node.value)` for each node in turn. */
    static method PushValues(visits: seq<Node>) returns (sortedArray: seq<int>)
      ensures sortedArray == Values(visits)
    {
      sortedArray := [];
      for i := 0 to |visits|
        invariant sortedArray == Values(visits[..i])
      {
        assert visits[..i + 1][..i] == visits[..i];
        sortedArray := sortedArray + [visits[i].value];
      }
      assert visits[..|visits|] == visits;
    }
  }
}

/**
 * Value-level model of `levelOrder`: a queue of subtrees, served from the
 * front, each served node putting its non-empty children at the back.
 */
module LevelModel {
  import opened TreeModel

  /** A first-in first-out queue of subtrees, front first. */
  datatype Queue = Empty | Cons(front: Tree, rest: Queue)

  /** The queue `a` followed by the queue `b`. */
  function Append(a: Queue, b: Queue): (q: Queue)
    ensures QueueSize(q) == QueueSize(a) + QueueSize(b)
  {
    match a
    case Empty => b
    case Cons(t, rest) => Cons(t, Append(rest, b))
  }

  /** The number of nodes in all trees of a queue. */
  function QueueSize(q: Queue): nat {
    match q
    case Empty => 0
    case Cons(t, rest) => Size(t) + QueueSize(rest)
  }

  /** The children `levelOrder` pushes for a node: the left one, then the right one, skipping empty ones. */
  function Kids(t: Tree): (q: Queue)
    ensures t.Node? ==> QueueSize(q) + 1 == Size(t)
  {
    match t
    case Nil => Empty
    case Node(l, _, r) =>
      var rq := if r.Node? then Cons(r, Empty) else Empty;
      assert QueueSize(rq) == Size(r);
      if l.Node? then Cons(l, rq) else rq
  }

  /**
   * The values in the order `levelOrder` visits them, starting from the queue
   * `q`: take the front tree, visit its root, put its children at the back.
   */
  function Bfs(q: Queue): (s: seq<int>)
    ensures |s| == QueueSize(q)
    decreases QueueSize(q), q
  {
    match q
    case Empty => []
    case Cons(Nil, rest) => Bfs(rest)
    case Cons(Node(_, x, _), rest) => [x] + Bfs(Append(rest, Kids(q.front)))
  }

  /** Serving a non-empty tree at the front: its root is visited, its children go to the back. */
  lemma ServeFront(t: Tree, rest: Queue)
    requires t.Node?
    ensures Bfs(Cons(t, rest)) == [t.value] + Bfs(Append(rest, Kids(t)))
    ensures QueueSize(Cons(t, rest)) == 1 + QueueSize(Append(rest, Kids(t)))
  {
  }

  /** The values at the roots of the trees of a queue, front to back. */
  function Roots(q: Queue): seq<int> {
    match q
    case Empty => []
    case Cons(Nil, rest) => Roots(rest)
    case Cons(Node(_, x, _), rest) => [x] + Roots(rest)
  }

  /** The next level of a queue: the children of its trees, front to back. */
  function Children(q: Queue): (c: Queue)
    ensures QueueSize(c) <= QueueSize(q)
    ensures q.Cons? ==> QueueSize(c) < QueueSize(q) || c == Empty
  {
    match q
    case Empty => Empty
    case Cons(t, rest) =>
      var c := Children(rest);
      assert QueueSize(Kids(t)) <= Size(t);
      assert t.Node? ==> QueueSize(Kids(t)) < Size(t);
      assert t.Nil? ==> Kids(t) == Empty;
      Append(Kids(t), c)
  }

  /** Level by level: the roots of the queue, then the roots of the next level, and so on. */
  function Levels(q: Queue): seq<int>
    decreases QueueSize(q), if q.Empty? then 0 else 1
  {
    match q
    case Empty => []
    case Cons(_, _) => Roots(q) + Levels(Children(q))
  }

  lemma {:induction false} AppendEmpty(a: Queue)
    ensures Append(a, Empty) == a
  {
    match a
    case Empty =>
    case Cons(_, rest) => AppendEmpty(rest);
  }

  lemma {:induction false} AppendAssociative(a: Queue, b: Queue, c: Queue)
    ensures Append(Append(a, b), c) == Append(a, Append(b, c))
  {
    match a
    case Empty =>
    case Cons(_, rest) => AppendAssociative(rest, b, c);
  }

  /**
   * Serving a whole prefix `a` of the queue visits its roots and leaves its
   * children queued behind the rest `b`.
   */
  lemma {:induction false} BfsServesPrefix(a: Queue, b: Queue)
    ensures Bfs(Append(a, b)) == Roots(a) + Bfs(Append(b, Children(a)))
  {
    match a
    case Empty =>
      AppendEmpty(b);
    case Cons(Nil, rest) =>
      BfsServesPrefix(rest, b);
    case Cons(Node(_, x, _), rest) =>
      BfsServesPrefix(rest, Append(b, Kids(a.front)));
      AppendAssociative(rest, b, Kids(a.front));
      AppendAssociative(b, Kids(a.front), Children(rest));
  }

  /** `levelOrder` visits the tree level by level, each level from left to right. */
  lemma {:induction false} BfsIsLevels(q: Queue)
    ensures Bfs(q) == Levels(q)
    decreases QueueSize(q), if q.Empty? then 0 else 1
  {
    match q
    case Empty =>
    case Cons(_, _) =>
      BfsServesPrefix(q, Empty);
      AppendEmpty(q);
      BfsIsLevels(Children(q));
  }

  /** The multiset of all values held by the trees of a queue. */
  function QueueValues(q: Queue): multiset<int> {
    match q
    case Empty => multiset{}
    case Cons(t, rest) => multiset(InOrder(t)) + QueueValues(rest)
  }

  lemma {:induction false} QueueValuesAppend(a: Queue, b: Queue)
    ensures QueueValues(Append(a, b)) == QueueValues(a) + QueueValues(b)
  {
    match a
    case Empty =>
    case Cons(_, rest) => QueueValuesAppend(rest, b);
  }

  /** The children of a node hold all of its values but its own. */
  lemma KidsValues(t: Tree)
    requires t.Node?
    ensures multiset(InOrder(t)) == multiset{t.value} + QueueValues(Kids(t))
  {
    var l, x, r := t.left, t.value, t.right;
    var ml, mr := multiset(InOrder(l)), multiset(InOrder(r));
    assert multiset(InOrder(t)) == ml + multiset{x} + mr;
    var rq := if r.Node? then Cons(r, Empty) else Empty;
    assert QueueValues(rq) == mr;
    assert QueueValues(Kids(t)) == ml + mr by {
      if l.Node? {
        assert Kids(t) == Cons(l, rq);
      } else {
        assert Kids(t) == rq;
      }
    }
    assert ml + multiset{x} + mr == multiset{x} + (ml + mr);
  }

  /** The multiset bookkeeping of one step of `levelOrder`, on plain values. */
  lemma ServeMultisets(x: int, s: seq<int>, mt: multiset<int>, mrest: multiset<int>, mkids: multiset<int>)
    requires multiset(s) == mrest + mkids
    requires mt == multiset{x} + mkids
    ensures multiset([x] + s) == mt + mrest
  {
    assert multiset([x] + s) == multiset{x} + multiset(s);
  }

  /** Starting from a queue, `levelOrder` visits every value of every queued tree, each as often as it occurs. */
  lemma {:induction false} BfsVisitsAll(q: Queue)
    ensures multiset(Bfs(q)) == QueueValues(q)
    decreases QueueSize(q), q
  {
    match q
    case Empty =>
    case Cons(Nil, rest) =>
      BfsVisitsAll(rest);
    case Cons(Node(_, x, _), rest) =>
      var t := q.front;
      var next := Append(rest, Kids(t));
      assert Bfs(q) == [x] + Bfs(next);
      BfsVisitsAll(next);
      QueueValuesAppend(rest, Kids(t));
      KidsValues(t);
      ServeMultisets(x, Bfs(next), multiset(InOrder(t)), QueueValues(rest), QueueValues(Kids(t)));
  }

  /** The level order of one tree is a permutation of its in-order sequence, one entry per node. */
  lemma LevelOrderPermutes(t: Tree)
    ensures multiset(Bfs(Cons(t, Empty))) == multiset(InOrder(t))
    ensures |Bfs(Cons(t, Empty))| == Size(t)
  {
    BfsVisitsAll(Cons(t, Empty));
    InOrderElements(t);
  }
}

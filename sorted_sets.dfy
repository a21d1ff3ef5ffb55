/**
 * The normalisation step of `buildTree`: removing duplicates through a `Set`
 * and sorting numerically. Values are modelled as mathematical integers, so the
 * comparator `(a, b) => a - b` is plain `<`.
 */
module SortedSets {

  /** Every element is strictly smaller than every later one: ascending, no repeats. */
  predicate StrictlyIncreasing(s: seq<int>) {
    forall i, j :: 0 <= i < j < |s| ==> s[i] < s[j]
  }

  /** The set of elements of a sequence. */
  function Elems(s: seq<int>): set<int> {
    set x | x in s
  }

  /** Puts `x` into an ascending duplicate-free sequence, dropping it if already there. */
  function InsertSorted(s: seq<int>, x: int): (r: seq<int>)
    requires StrictlyIncreasing(s)
    ensures StrictlyIncreasing(r)
    ensures Elems(r) == Elems(s) + {x}
  {
    if s == [] then [x]
    else if x < s[0] then
      ConsIncreasing(x, s);
      [x] + s
    else if x == s[0] then s
    else
      var rest := InsertSorted(s[1..], x);
      TailAbove(s);
      ConsIncreasing(s[0], rest);
      [s[0]] + rest
  }

  /** Put in front of an ascending sequence, a value below all of its elements keeps it ascending. */
  lemma ConsIncreasing(h: int, s: seq<int>)
    requires StrictlyIncreasing(s)
    requires forall y :: y in Elems(s) ==> h < y
    ensures StrictlyIncreasing([h] + s)
    ensures Elems([h] + s) == {h} + Elems(s)
  {
    forall j | 0 <= j < |s| ensures h < s[j] {
      assert s[j] in Elems(s);
    }
  }

  /** The head of an ascending sequence is below every element of its tail, which holds the rest. */
  lemma TailAbove(s: seq<int>)
    requires StrictlyIncreasing(s) && s != []
    ensures StrictlyIncreasing(s[1..])
    ensures forall y :: y in Elems(s[1..]) ==> s[0] < y
    ensures Elems(s) == {s[0]} + Elems(s[1..])
  {
    assert s == [s[0]] + s[1..];
    forall y | y in Elems(s[1..]) ensures s[0] < y {
      var k :| 0 <= k < |s[1..]| && s[1..][k] == y;
      assert s[k + 1] == y;
    }
  }

  /** A sequence with `x` in the middle is ascending exactly when both sides are and `x` lies between them. */
  lemma JoinIncreasing(sl: seq<int>, x: int, sr: seq<int>)
    ensures StrictlyIncreasing(sl + [x] + sr) <==>
      StrictlyIncreasing(sl) && StrictlyIncreasing(sr) &&
      (forall y :: y in Elems(sl) ==> y < x) && (forall y :: y in Elems(sr) ==> x < y)
  {
    var s := sl + [x] + sr;
    forall i | 0 <= i < |s|
      ensures i < |sl| ==> s[i] == sl[i]
      ensures i == |sl| ==> s[i] == x
      ensures i > |sl| ==> s[i] == sr[i - |sl| - 1]
    {
    }
    if StrictlyIncreasing(s) {
      forall i, j | 0 <= i < j < |sl| ensures sl[i] < sl[j] {
        assert s[i] < s[j];
      }
      forall i, j | 0 <= i < j < |sr| ensures sr[i] < sr[j] {
        assert s[i + |sl| + 1] < s[j + |sl| + 1];
      }
      forall y | y in Elems(sl) ensures y < x {
        var k :| 0 <= k < |sl| && sl[k] == y;
        assert s[k] < s[|sl|];
      }
      forall y | y in Elems(sr) ensures x < y {
        var k :| 0 <= k < |sr| && sr[k] == y;
        assert s[|sl|] < s[k + |sl| + 1];
      }
    }
    if StrictlyIncreasing(sl) && StrictlyIncreasing(sr) &&
      (forall y :: y in Elems(sl) ==> y < x) && (forall y :: y in Elems(sr) ==> x < y)
    {
      forall i, j | 0 <= i < j < |s| ensures s[i] < s[j] {
        assert i < |sl| ==> s[i] in Elems(sl);
        assert j > |sl| ==> s[j] in Elems(sr);
      }
    }
  }

  /**
   * The distinct values of `a` in ascending order: the value of
   * `[...new Set(a)].sort((a, b) => a - b)`.
   */
  function SortedDistinct(a: seq<int>): (r: seq<int>)
    ensures StrictlyIncreasing(r)
    ensures Elems(r) == Elems(a)
  {
    if a == [] then []
    else
      var front := a[..|a| - 1];
      assert a == front + [a[|a| - 1]];
      assert Elems(a) == Elems(front) + {a[|a| - 1]};
      InsertSorted(SortedDistinct(front), a[|a| - 1])
  }

  /** Two ascending duplicate-free sequences with the same elements are the same sequence. */
  lemma {:induction false} IncreasingUnique(s: seq<int>, t: seq<int>)
    requires StrictlyIncreasing(s) && StrictlyIncreasing(t)
    requires Elems(s) == Elems(t)
    ensures s == t
    decreases |s|
  {
    assert s != [] ==> s[0] in Elems(s);
    assert t != [] ==> t[0] in Elems(t);
    if s != [] && t != [] {
      assert s[0] in Elems(t);
      assert t[0] in Elems(s);
      var i :| 0 <= i < |t| && t[i] == s[0];
      var j :| 0 <= j < |s| && s[j] == t[0];
      assert s[0] == t[0];
      assert s == [s[0]] + s[1..];
      assert t == [t[0]] + t[1..];
      HeadNotInTail(s);
      HeadNotInTail(t);
      assert Elems(s) == {s[0]} + Elems(s[1..]);
      assert Elems(t) == {t[0]} + Elems(t[1..]);
      IncreasingUnique(s[1..], t[1..]);
    }
  }

  /** The first element of an ascending duplicate-free sequence does not occur again. */
  lemma HeadNotInTail(s: seq<int>)
    requires StrictlyIncreasing(s) && s != []
    ensures s[0] !in Elems(s[1..])
  {
    forall k | 0 <= k < |s| - 1 ensures s[0] < s[1..][k] {
      assert s[1..][k] == s[k + 1];
    }
  }

  /** Normalising an already ascending duplicate-free sequence leaves it as it is. */
  lemma SortedDistinctOfSorted(s: seq<int>)
    requires StrictlyIncreasing(s)
    ensures SortedDistinct(s) == s
  {
    IncreasingUnique(SortedDistinct(s), s);
  }

  /** Normalising twice is normalising once. */
  lemma SortedDistinctIdempotent(a: seq<int>)
    ensures SortedDistinct(SortedDistinct(a)) == SortedDistinct(a)
  {
    SortedDistinctOfSorted(SortedDistinct(a));
  }
}

/**
 * The value model of the binary search tree that every port of the engine
 * manipulates: a node holds a value and two optional children, and the
 * absent child is `Leaf`.  This module also holds the reference definitions
 * the operations are proved against: the element set, strict BST ordering,
 * height, node count, the three depth-first visit orders, and two operations
 * on sorted sequences (insertion at the sorted position, removal of a value).
 */
module TreeModel {

  datatype Tree = Leaf | Node(left: Tree, value: int, right: Tree)

  /** The set of values stored in `t`. */
  function Elements(t: Tree): set<int>
  {
    match t
    case Leaf => {}
    case Node(l, v, r) => Elements(l) + {v} + Elements(r)
  }

  /** Strict BST ordering: left values are smaller, right values larger, at every node. */
  ghost predicate IsBST(t: Tree)
  {
    match t
    case Leaf => true
    case Node(l, v, r) =>
      IsBST(l) && IsBST(r) &&
      (forall x :: x in Elements(l) ==> x < v) &&
      (forall x :: x in Elements(r) ==> v < x)
  }

  function Max(a: int, b: int): int
  {
    if a < b then b else a
  }

  /** Number of nodes on the longest root-to-leaf path; 0 for the empty tree. */
  function Height(t: Tree): (h: nat)
    ensures h == 0 <==> t == Leaf
  {
    match t
    case Leaf => 0
    case Node(l, _, r) => 1 + Max(Height(l), Height(r))
  }

  /** Number of nodes; 0 exactly for the empty tree. */
  function Count(t: Tree): (n: nat)
    ensures n == 0 <==> t == Leaf
  {
    match t
    case Leaf => 0
    case Node(l, _, r) => 1 + Count(l) + Count(r)
  }

  /** Left subtree, node, right subtree. */
  function InOrder(t: Tree): seq<int>
  {
    match t
    case Leaf => []
    case Node(l, v, r) => InOrder(l) + [v] + InOrder(r)
  }

  /** Node, left subtree, right subtree. */
  function PreOrder(t: Tree): seq<int>
  {
    match t
    case Leaf => []
    case Node(l, v, r) => [v] + PreOrder(l) + PreOrder(r)
  }

  /** Left subtree, right subtree, node. */
  function PostOrder(t: Tree): seq<int>
  {
    match t
    case Leaf => []
    case Node(l, v, r) => PostOrder(l) + PostOrder(r) + [v]
  }

  ghost predicate Ascending(s: seq<int>)
  {
    forall i, j :: 0 <= i < j < |s| ==> s[i] < s[j]
  }

  /** `s` with `v` placed before the first element not smaller than it, unless that element is `v`. */
  function InsertSorted(s: seq<int>, v: int): seq<int>
  {
    if s == [] then [v]
    else if v < s[0] then [v] + s
    else if v == s[0] then s
    else [s[0]] + InsertSorted(s[1..], v)
  }

  /** `s` with every occurrence of `v` dropped. */
  function Without(s: seq<int>, v: int): seq<int>
  {
    if s == [] then []
    else if s[0] == v then Without(s[1..], v)
    else [s[0]] + Without(s[1..], v)
  }

  // ---------------------------------------------------------------------------
  // Traversals

  /** The in-order sequence lists exactly the tree's values. */
  lemma {:induction false} InOrderElements(t: Tree)
    ensures forall x :: x in InOrder(t) <==> x in Elements(t)
  {
    match t
    case Leaf =>
    case Node(l, v, r) =>
      InOrderElements(l);
      InOrderElements(r);
  }

  /**
   * The three traversals visit the same values, one per node: they are
   * permutations of each other and their length is the node count.  The
   * pre-order starts with the root and the post-order ends with it.
   */
  lemma {:induction false} TraversalsAgree(t: Tree)
    ensures |InOrder(t)| == |PreOrder(t)| == |PostOrder(t)| == Count(t)
    ensures multiset(PreOrder(t)) == multiset(InOrder(t)) == multiset(PostOrder(t))
    ensures t.Node? ==> PreOrder(t)[0] == t.value && PostOrder(t)[|PostOrder(t)| - 1] == t.value
  {
    TraversalLengths(t);
    TraversalBags(t);
  }

  lemma {:induction false} TraversalLengths(t: Tree)
    ensures |InOrder(t)| == |PreOrder(t)| == |PostOrder(t)| == Count(t)
  {
    match t
    case Leaf =>
    case Node(l, v, r) =>
      TraversalLengths(l);
      TraversalLengths(r);
  }

  lemma {:induction false} TraversalBags(t: Tree)
    ensures multiset(PreOrder(t)) == multiset(InOrder(t)) == multiset(PostOrder(t))
  {
    match t
    case Leaf =>
    case Node(l, v, r) =>
      TraversalBags(l);
      TraversalBags(r);
      assert InOrder(t) == InOrder(l) + [v] + InOrder(r);
      assert PreOrder(t) == [v] + PreOrder(l) + PreOrder(r);
      assert PostOrder(t) == PostOrder(l) + PostOrder(r) + [v];
  }

  lemma AscendingAppendSplit(a: seq<int>, b: seq<int>)
    requires Ascending(a + b)
    ensures Ascending(a) && Ascending(b)
    ensures forall x, y :: x in a && y in b ==> x < y
  {
    var s := a + b;
    assert forall i :: 0 <= i < |a| ==> s[i] == a[i];
    assert forall i :: 0 <= i < |b| ==> s[|a| + i] == b[i];
    forall i, j | 0 <= i < j < |b| ensures b[i] < b[j] {
      assert s[|a| + i] < s[|a| + j];
    }
    forall x, y | x in a && y in b ensures x < y {
      var i :| 0 <= i < |a| && a[i] == x;
      var j :| 0 <= j < |b| && b[j] == y;
      assert s[i] < s[|a| + j];
    }
  }

  lemma AscendingAppendJoin(a: seq<int>, b: seq<int>)
    requires Ascending(a) && Ascending(b)
    requires forall x, y :: x in a && y in b ==> x < y
    ensures Ascending(a + b)
  {
    var s := a + b;
    forall i, j | 0 <= i < j < |s| ensures s[i] < s[j] {
      if j < |a| {
        assert s[i] == a[i] && s[j] == a[j];
      } else if i < |a| {
        assert s[i] == a[i] && s[j] == b[j - |a|];
        assert a[i] in a && b[j - |a|] in b;
      } else {
        assert s[i] == b[i - |a|] && s[j] == b[j - |a|];
      }
    }
  }

  lemma AscendingCons(x: int, s: seq<int>)
    ensures Ascending([x] + s) <==> Ascending(s) && forall y :: y in s ==> x < y
  {
    if Ascending([x] + s) {
      AscendingAppendSplit([x], s);
      assert x in [x];
    }
    if Ascending(s) && forall y :: y in s ==> x < y {
      AscendingAppendJoin([x], s);
    }
  }

  lemma AscendingConcat(a: seq<int>, v: int, b: seq<int>)
    ensures Ascending(a + [v] + b) <==>
      Ascending(a) && Ascending(b) &&
      (forall x :: x in a ==> x < v) && (forall y :: y in b ==> v < y)
  {
    assert a + [v] + b == a + ([v] + b);
    AscendingCons(v, b);
    if Ascending(a + ([v] + b)) {
      AscendingAppendSplit(a, [v] + b);
      assert v in [v] + b;
    }
    if Ascending(a) && Ascending(b) && (forall x :: x in a ==> x < v) && (forall y :: y in b ==> v < y) {
      forall x, y | x in a && y in [v] + b ensures x < y {
        if y != v {
          assert y in b;
        }
      }
      AscendingAppendJoin(a, [v] + b);
    }
  }

  /**
   * The defining property of a binary search tree, in both directions: the
   * ordering holds exactly when the in-order sequence is strictly ascending.
   */
  lemma {:induction false} BstIffAscending(t: Tree)
    ensures IsBST(t) <==> Ascending(InOrder(t))
  {
    match t
    case Leaf =>
    case Node(l, v, r) =>
      BstIffAscending(l);
      BstIffAscending(r);
      InOrderElements(l);
      InOrderElements(r);
      AscendingConcat(InOrder(l), v, InOrder(r));
  }

  /** A BST stores no duplicates: its node count is the number of distinct values. */
  lemma {:induction false} BstCountIsCardinality(t: Tree)
    requires IsBST(t)
    ensures Count(t) == |Elements(t)|
  {
    match t
    case Leaf =>
    case Node(l, v, r) =>
      BstCountIsCardinality(l);
      BstCountIsCardinality(r);
      var low, high := Elements(l) + {v}, Elements(r);
      assert v !in Elements(l);
      assert forall x :: x in low ==> x !in high;
      assert low * high == {};
  }

  /** A tree is never taller than it has nodes. */
  lemma {:induction false} HeightAtMostCount(t: Tree)
    ensures Height(t) <= Count(t)
  {
    match t
    case Leaf =>
    case Node(l, _, r) =>
      HeightAtMostCount(l);
      HeightAtMostCount(r);
  }

  // ---------------------------------------------------------------------------
  // Sorted-sequence reference operations

  /** Inserting into an ascending sequence keeps it ascending and adds exactly `v`. */
  lemma {:induction false} InsertSortedAscending(s: seq<int>, v: int)
    requires Ascending(s)
    ensures Ascending(InsertSorted(s, v))
    ensures forall x :: x in InsertSorted(s, v) <==> x in s || x == v
    ensures |InsertSorted(s, v)| == if v in s then |s| else |s| + 1
  {
    if s == [] {
    } else {
      AscendingCons(s[0], s[1..]);
      assert s == [s[0]] + s[1..];
      if v < s[0] {
        AscendingCons(v, s);
      } else if v == s[0] {
      } else {
        InsertSortedAscending(s[1..], v);
        AscendingCons(s[0], InsertSorted(s[1..], v));
      }
    }
  }

  /** Removing `v` from an ascending sequence keeps it ascending and drops exactly `v`. */
  lemma {:induction false} WithoutAscending(s: seq<int>, v: int)
    requires Ascending(s)
    ensures Ascending(Without(s, v))
    ensures forall x :: x in Without(s, v) <==> x in s && x != v
    ensures |Without(s, v)| == if v in s then |s| - 1 else |s|
  {
    if s != [] {
      AscendingCons(s[0], s[1..]);
      assert s == [s[0]] + s[1..];
      WithoutAscending(s[1..], v);
      if s[0] != v {
        AscendingCons(s[0], Without(s[1..], v));
      }
    }
  }

  lemma {:induction false} InsertSortedBefore(a: seq<int>, c: seq<int>, v: int)
    requires c != [] && v < c[0]
    ensures InsertSorted(a + c, v) == InsertSorted(a, v) + c
  {
    if a == [] {
      assert a + c == c;
    } else {
      assert (a + c)[0] == a[0] && (a + c)[1..] == a[1..] + c;
      InsertSortedBefore(a[1..], c, v);
    }
  }

  lemma {:induction false} InsertSortedAfter(a: seq<int>, c: seq<int>, v: int)
    requires forall x :: x in a ==> x < v
    ensures InsertSorted(a + c, v) == a + InsertSorted(c, v)
  {
    if a == [] {
      assert a + c == c;
    } else {
      assert (a + c)[0] == a[0] && (a + c)[1..] == a[1..] + c;
      assert forall x :: x in a[1..] ==> x in a;
      assert a[0] in a;
      InsertSortedAfter(a[1..], c, v);
    }
  }

  lemma {:induction false} WithoutConcat(a: seq<int>, b: seq<int>, v: int)
    ensures Without(a + b, v) == Without(a, v) + Without(b, v)
  {
    if a == [] {
      assert a + b == b;
    } else {
      assert (a + b)[0] == a[0] && (a + b)[1..] == a[1..] + b;
      WithoutConcat(a[1..], b, v);
    }
  }

  lemma {:induction false} WithoutAbsent(s: seq<int>, v: int)
    requires v !in s
    ensures Without(s, v) == s
  {
    if s != [] {
      assert s[1..] == s[1..];
      assert forall x :: x in s[1..] ==> x in s;
      WithoutAbsent(s[1..], v);
    }
  }
}

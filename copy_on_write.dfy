/**
 * The copy-on-write engine of the TypeScript visualiser: every operation is
 * an expression-level recursion that rebuilds the nodes on the search path
 * and shares the rest.  These functions are also the reference against which
 * the in-place ports (module Linked) are proved.
 */
module CopyOnWrite {
  import opened TreeModel

  function MakeNode(v: int): (t: Tree)
    ensures InOrder(t) == [v] && Height(t) == 1 && Count(t) == 1
  {
    Node(Leaf, v, Leaf)
  }

  /** Rebuilds every node; on values this is the identity. */
  function Clone(n: Tree): (c: Tree)
    ensures c == n
  {
    match n
    case Leaf => Leaf
    case Node(l, v, r) => Node(Clone(l), v, Clone(r))
  }

  /** Descends by comparison; an equal value returns the subtree unchanged. */
  function Insert(root: Tree, v: int): (r: Tree)
    ensures r.Node?
  {
    match root
    case Leaf => MakeNode(v)
    case Node(l, x, rt) =>
      if v < x then Node(Insert(l, v), x, rt)
      else if v > x then Node(l, x, Insert(rt, v))
      else root
  }

  /** Descends by comparison; on any tree a reported value is one the tree holds. */
  function Search(root: Tree, v: int): (found: bool)
    ensures found ==> v in Elements(root)
  {
    match root
    case Leaf => false
    case Node(l, x, r) =>
      if v == x then true
      else if v < x then Search(l, v)
      else Search(r, v)
  }

  /** Follows `left` children from a non-empty subtree. */
  function MinNode(n: Tree): (m: Tree)
    requires n.Node?
    ensures m.Node? && m.left == Leaf && m.value in Elements(n)
  {
    if n.left.Node? then MinNode(n.left) else n
  }

  /**
   * No left child: the right child replaces the node; no right child: the
   * left one does; two children: the node takes its in-order successor's
   * value and that value is removed from the right subtree.  On any tree it
   * keeps only stored values and never adds one.
   */
  function Remove(root: Tree, v: int): (r: Tree)
    ensures forall x :: x in Elements(r) ==> x in Elements(root)
  {
    match root
    case Leaf => Leaf
    case Node(l, x, rt) =>
      if v < x then Node(Remove(l, v), x, rt)
      else if v > x then Node(l, x, Remove(rt, v))
      else if l.Leaf? then rt
      else if rt.Leaf? then l
      else
        var s := MinNode(rt);
        Node(l, s.value, Remove(rt, s.value))
  }

  // ---------------------------------------------------------------------------
  // Traversals that push into an accumulator, as the visualiser does

  method PushInorder(n: Tree, r: seq<int>) returns (out: seq<int>)
    ensures out == r + InOrder(n)
  {
    out := r;
    if n.Node? {
      out := PushInorder(n.left, out);
      out := out + [n.value];
      out := PushInorder(n.right, out);
    }
  }

  method PushPreorder(n: Tree, r: seq<int>) returns (out: seq<int>)
    ensures out == r + PreOrder(n)
  {
    out := r;
    if n.Node? {
      out := out + [n.value];
      out := PushPreorder(n.left, out);
      out := PushPreorder(n.right, out);
    }
  }

  method PushPostorder(n: Tree, r: seq<int>) returns (out: seq<int>)
    ensures out == r + PostOrder(n)
  {
    out := r;
    if n.Node? {
      out := PushPostorder(n.left, out);
      out := PushPostorder(n.right, out);
      out := out + [n.value];
    }
  }

  // ---------------------------------------------------------------------------
  // Insert

  /** Inserting adds exactly `v` to the stored values, on any tree. */
  lemma {:induction false} InsertElements(t: Tree, v: int)
    ensures Elements(Insert(t, v)) == Elements(t) + {v}
  {
    match t
    case Leaf =>
    case Node(l, x, r) =>
      if v < x {
        InsertElements(l, v);
      } else if v > x {
        InsertElements(r, v);
      }
  }

  /**
   * On a BST the in-order sequence after inserting `v` is the old one with
   * `v` placed at its sorted position (unchanged when `v` is present).
   */
  lemma {:induction false} InsertInOrder(t: Tree, v: int)
    requires IsBST(t)
    ensures InOrder(Insert(t, v)) == InsertSorted(InOrder(t), v)
  {
    match t
    case Leaf =>
    case Node(l, x, r) =>
      InOrderElements(l);
      if v < x {
        InsertInOrder(l, v);
        assert InOrder(t) == InOrder(l) + ([x] + InOrder(r));
        InsertSortedBefore(InOrder(l), [x] + InOrder(r), v);
      } else if v > x {
        InsertInOrder(r, v);
        assert InOrder(t) == (InOrder(l) + [x]) + InOrder(r);
        InsertSortedAfter(InOrder(l) + [x], InOrder(r), v);
      } else {
        assert InOrder(t) == InOrder(l) + ([x] + InOrder(r));
        InsertSortedAfter(InOrder(l), [x] + InOrder(r), v);
      }
  }

  /** Insert keeps strict BST ordering. */
  lemma InsertPreservesBST(t: Tree, v: int)
    requires IsBST(t)
    ensures IsBST(Insert(t, v))
  {
    InsertInOrder(t, v);
    BstIffAscending(t);
    InsertSortedAscending(InOrder(t), v);
    BstIffAscending(Insert(t, v));
  }

  /** On a BST, insert grows the node count by one exactly when `v` was absent. */
  lemma InsertCount(t: Tree, v: int)
    requires IsBST(t)
    ensures Count(Insert(t, v)) == if v in Elements(t) then Count(t) else Count(t) + 1
  {
    InsertInOrder(t, v);
    BstIffAscending(t);
    InsertSortedAscending(InOrder(t), v);
    InOrderElements(t);
    TraversalsAgree(t);
    TraversalsAgree(Insert(t, v));
  }

  /** Inserting a value the BST already holds returns the very same tree. */
  lemma {:induction false} InsertPresent(t: Tree, v: int)
    requires IsBST(t) && v in Elements(t)
    ensures Insert(t, v) == t
  {
    match t
    case Node(l, x, r) =>
      if v < x {
        InsertPresent(l, v);
      } else if v > x {
        InsertPresent(r, v);
      }
  }

  /** A duplicate insert is idempotent: inserting twice equals inserting once. */
  lemma InsertIdempotent(t: Tree, v: int)
    requires IsBST(t)
    ensures Insert(Insert(t, v), v) == Insert(t, v)
  {
    InsertPreservesBST(t, v);
    InsertElements(t, v);
    InsertPresent(Insert(t, v), v);
  }

  // ---------------------------------------------------------------------------
  // Search

  /** On a BST, search finds `v` exactly when `v` is stored. */
  lemma {:induction false} SearchCorrect(t: Tree, v: int)
    requires IsBST(t)
    ensures Search(t, v) <==> v in Elements(t)
  {
    match t
    case Leaf =>
    case Node(l, x, r) =>
      SearchCorrect(l, v);
      SearchCorrect(r, v);
  }

  // ---------------------------------------------------------------------------
  // Minimum

  /** The leftmost node holds the first in-order value, on any non-empty tree. */
  lemma {:induction false} MinNodeFirst(t: Tree)
    requires t.Node?
    ensures InOrder(t) != [] && MinNode(t).value == InOrder(t)[0]
  {
    if t.left.Node? {
      MinNodeFirst(t.left);
    }
  }

  /** On a BST the leftmost node holds the least stored value. */
  lemma MinNodeIsLeast(t: Tree)
    requires t.Node? && IsBST(t)
    ensures MinNode(t).value in Elements(t)
    ensures forall x :: x in Elements(t) ==> MinNode(t).value <= x
  {
    MinNodeFirst(t);
    InOrderElements(t);
    BstIffAscending(t);
    var s := InOrder(t);
    forall x | x in Elements(t) ensures s[0] <= x {
      var k :| 0 <= k < |s| && s[k] == x;
    }
  }

  // ---------------------------------------------------------------------------
  // Remove

  lemma WithoutHead(s: seq<int>)
    requires s != [] && Ascending(s)
    ensures Without(s, s[0]) == s[1..]
  {
    AscendingCons(s[0], s[1..]);
    assert s == [s[0]] + s[1..];
    assert s[0] !in s[1..];
    WithoutAbsent(s[1..], s[0]);
  }

  /** On a BST, the in-order sequence after removing `v` is the old one without `v`. */
  lemma {:induction false} RemoveInOrder(t: Tree, v: int)
    requires IsBST(t)
    ensures InOrder(Remove(t, v)) == Without(InOrder(t), v)
  {
    match t
    case Leaf =>
    case Node(l, x, r) =>
      if v < x {
        RemoveInOrder(l, v);
        RemoveBelowInOrder(t, v);
      } else if v > x {
        RemoveInOrder(r, v);
        RemoveAboveInOrder(t, v);
      } else {
        if l.Node? && r.Node? {
          RemoveSuccessorInOrder(r);
        }
        RemoveRootInOrder(t);
      }
  }

  /** Removal in the left subtree, given that it is correct there. */
  lemma RemoveBelowInOrder(t: Tree, v: int)
    requires IsBST(t) && t.Node? && v < t.value
    requires InOrder(Remove(t.left, v)) == Without(InOrder(t.left), v)
    ensures InOrder(Remove(t, v)) == Without(InOrder(t), v)
  {
    var a, b := InOrder(t.left), InOrder(t.right);
    assert InOrder(t) == a + ([t.value] + b);
    WithoutConcat(a, [t.value] + b, v);
    assert v !in [t.value] + b by {
      InOrderElements(t.right);
    }
    WithoutAbsent([t.value] + b, v);
  }

  /** Removal in the right subtree, given that it is correct there. */
  lemma RemoveAboveInOrder(t: Tree, v: int)
    requires IsBST(t) && t.Node? && v > t.value
    requires InOrder(Remove(t.right, v)) == Without(InOrder(t.right), v)
    ensures InOrder(Remove(t, v)) == Without(InOrder(t), v)
  {
    var a, b := InOrder(t.left), InOrder(t.right);
    assert InOrder(t) == a + ([t.value] + b);
    WithoutConcat(a, [t.value] + b, v);
    assert v !in a by {
      InOrderElements(t.left);
    }
    WithoutAbsent(a, v);
    WithoutConcat([t.value], b, v);
  }

  /** Removal of the root value, given that removing the successor drops the head of the right subtree. */
  lemma RemoveRootInOrder(t: Tree)
    requires IsBST(t) && t.Node?
    requires t.left.Node? && t.right.Node? ==>
      [MinNode(t.right).value] + InOrder(Remove(t.right, MinNode(t.right).value)) == InOrder(t.right)
    ensures InOrder(Remove(t, t.value)) == Without(InOrder(t), t.value)
  {
    WithoutRoot(t);
    var a, b := InOrder(t.left), InOrder(t.right);
    if t.left.Leaf? {
      assert a + b == b;
    } else if t.right.Leaf? {
      assert a + b == a;
    } else {
      var m := MinNode(t.right).value;
      assert InOrder(Remove(t, t.value)) == a + ([m] + InOrder(Remove(t.right, m)));
    }
  }

  /** In a BST the root value occurs once in the in-order sequence, between the two subtrees. */
  lemma WithoutRoot(t: Tree)
    requires IsBST(t) && t.Node?
    ensures Without(InOrder(t), t.value) == InOrder(t.left) + InOrder(t.right)
  {
    var a, b, v := InOrder(t.left), InOrder(t.right), t.value;
    assert InOrder(t) == a + ([v] + b);
    WithoutConcat(a, [v] + b, v);
    assert Without(a, v) == a by {
      InOrderElements(t.left);
      WithoutAbsent(a, v);
    }
    assert Without([v] + b, v) == b by {
      InOrderElements(t.right);
      WithoutConcat([v], b, v);
      WithoutAbsent(b, v);
    }
  }

  /** Removing the leftmost value of a non-empty BST drops the head of its in-order sequence. */
  lemma RemoveSuccessorInOrder(r: Tree)
    requires IsBST(r) && r.Node?
    ensures InOrder(r) != []
    ensures [MinNode(r).value] + InOrder(Remove(r, MinNode(r).value)) == InOrder(r)
  {
    var m := MinNode(r).value;
    RemoveInOrder(r, m);
    MinNodeFirst(r);
    BstIffAscending(r);
    WithoutHead(InOrder(r));
  }

  /** Remove keeps strict BST ordering. */
  lemma RemovePreservesBST(t: Tree, v: int)
    requires IsBST(t)
    ensures IsBST(Remove(t, v))
  {
    RemoveInOrder(t, v);
    BstIffAscending(t);
    WithoutAscending(InOrder(t), v);
    BstIffAscending(Remove(t, v));
  }

  /** Remove drops exactly `v` from the stored values. */
  lemma RemoveElements(t: Tree, v: int)
    requires IsBST(t)
    ensures Elements(Remove(t, v)) == Elements(t) - {v}
  {
    RemoveInOrder(t, v);
    BstIffAscending(t);
    WithoutAscending(InOrder(t), v);
    InOrderElements(t);
    InOrderElements(Remove(t, v));
  }

  /** Remove shrinks the node count by one exactly when `v` was present. */
  lemma RemoveCount(t: Tree, v: int)
    requires IsBST(t)
    ensures Count(Remove(t, v)) == if v in Elements(t) then Count(t) - 1 else Count(t)
  {
    RemoveInOrder(t, v);
    BstIffAscending(t);
    WithoutAscending(InOrder(t), v);
    InOrderElements(t);
    TraversalsAgree(t);
    TraversalsAgree(Remove(t, v));
  }

  /** Removing a value the tree does not hold rebuilds an identical tree, BST or not. */
  lemma {:induction false} RemoveAbsent(t: Tree, v: int)
    requires v !in Elements(t)
    ensures Remove(t, v) == t
  {
    match t
    case Leaf =>
    case Node(l, x, r) =>
      if v < x {
        RemoveAbsent(l, v);
      } else if v > x {
        RemoveAbsent(r, v);
      }
  }

  /**
   * Removing the root value of a BST node with two children keeps the node
   * in place and gives it the in-order successor: the least stored value
   * greater than the removed one.
   */
  lemma RemoveTwoChildren(t: Tree)
    requires IsBST(t) && t.Node? && t.left.Node? && t.right.Node?
    ensures Remove(t, t.value).Node?
    ensures Remove(t, t.value).left == t.left
    ensures var s := Remove(t, t.value).value;
      s in Elements(t) && t.value < s &&
      forall y :: y in Elements(t) && t.value < y ==> s <= y
  {
    var s := MinNode(t.right).value;
    MinNodeIsLeast(t.right);
    forall y | y in Elements(t) && t.value < y ensures s <= y {
      assert y !in Elements(t.left);
    }
  }
}

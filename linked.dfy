/**
 * The in-place engine shared by the mutating ports: heap nodes whose child
 * pointers are rebound and whose value is overwritten by the recursive
 * insert and delete, a `while` loop to the leftmost node, and recursions
 * that read the tree.  Every node carries, as ghost state, the set of
 * objects of its subtree (`Repr`) and the value tree it stands for
 * (`Model`); each operation is proved to do to `Model` what the
 * copy-on-write function of module CopyOnWrite does to a value tree.
 */
module Linked {
  import opened TreeModel
  import CopyOnWrite
  import Layout
  import Levels

  class BstNode {
    var value: int
    var left: BstNode?
    var right: BstNode?

    ghost var Repr: set<object>
    ghost var Model: Tree

    /** The subtrees are disjoint, do not contain this node, and each stands for its child in `Model`. */
    ghost predicate Valid()
      reads this, Repr
      decreases Repr
    {
      this in Repr &&
      Model.Node? && Model.value == value &&
      (left == null ==> Model.left == Leaf) &&
      (left != null ==>
        left in Repr && left.Repr <= Repr && this !in left.Repr &&
        left.Valid() && left.Model == Model.left) &&
      (right == null ==> Model.right == Leaf) &&
      (right != null ==>
        right in Repr && right.Repr <= Repr && this !in right.Repr &&
        right.Valid() && right.Model == Model.right) &&
      (left != null && right != null ==> left.Repr !! right.Repr)
    }

    /** A fresh leaf node holding `v`, with no children. */
    constructor (v: int)
      ensures Valid() && fresh(Repr)
      ensures Model == Node(Leaf, v, Leaf) && value == v && left == null && right == null
    {
      value := v;
      left := null;
      right := null;
      Repr := {this};
      Model := Node(Leaf, v, Leaf);
    }
  }

  /** The value tree a possibly-null subtree pointer stands for. */
  ghost function ModelOf(n: BstNode?): Tree
    reads n
  {
    if n == null then Leaf else n.Model
  }

  ghost function ReprOf(n: BstNode?): set<object>
    reads n
  {
    if n == null then {} else n.Repr
  }

  ghost predicate ValidOpt(n: BstNode?)
    reads n, ReprOf(n)
  {
    n == null || n.Valid()
  }

  /** A well-formed node's children are well formed, disjoint, strictly inside it, and stand for its subtrees. */
  lemma Unfold(n: BstNode)
    requires n.Valid()
    ensures ValidOpt(n.left) && ValidOpt(n.right) && ReprOf(n.left) !! ReprOf(n.right)
    ensures ReprOf(n.left) < n.Repr && ReprOf(n.right) < n.Repr
    ensures n.Model == Node(ModelOf(n.left), n.value, ModelOf(n.right))
  {
  }

  /** The converse of `Unfold`: a node whose children meet its invariant is well formed. */
  lemma Fold(n: BstNode)
    requires n in n.Repr && ValidOpt(n.left) && ValidOpt(n.right) && ReprOf(n.left) !! ReprOf(n.right)
    requires ReprOf(n.left) <= n.Repr && ReprOf(n.right) <= n.Repr
    requires n !in ReprOf(n.left) && n !in ReprOf(n.right)
    requires n.Model == Node(ModelOf(n.left), n.value, ModelOf(n.right))
    ensures n.Valid()
  {
  }

  // ---------------------------------------------------------------------------
  // Insert

  /**
   * A null subtree becomes a fresh node; otherwise the value descends by
   * comparison and the returned child is stored back into the node, and an
   * equal value changes nothing.  The subtree keeps its root node.
   */
  method InsertRec(node: BstNode?, v: int) returns (r: BstNode)
    requires ValidOpt(node)
    modifies ReprOf(node)
    ensures r.Valid()
    ensures r.Model == CopyOnWrite.Insert(old(ModelOf(node)), v)
    ensures node != null ==> r == node
    ensures old(ReprOf(node)) <= r.Repr && fresh(r.Repr - old(ReprOf(node)))
    decreases ReprOf(node)
  {
    if node == null {
      r := new BstNode(v);
    } else {
      assert ValidOpt(node.left) && ValidOpt(node.right) && ReprOf(node.left) !! ReprOf(node.right);
      if v < node.value {
        var l := InsertRec(node.left, v);
        node.left := l;
        node.Repr := node.Repr + l.Repr;
      } else if v > node.value {
        var rt := InsertRec(node.right, v);
        node.right := rt;
        node.Repr := node.Repr + rt.Repr;
      }
      node.Model := Node(ModelOf(node.left), node.value, ModelOf(node.right));
      r := node;
    }
  }

  // ---------------------------------------------------------------------------
  // Minimum

  /**
   * Follows `left` pointers from a non-null node and returns the last node
   * reached: the leftmost node of the subtree, which holds its least value.
   */
  method MinNode(node: BstNode) returns (m: BstNode)
    requires node.Valid()
    ensures m.Valid() && m in node.Repr && m.left == null
    ensures m.Model == CopyOnWrite.MinNode(node.Model)
    ensures IsBST(node.Model) ==>
      m.value in Elements(node.Model) && forall x :: x in Elements(node.Model) ==> m.value <= x
  {
    m := node;
    while m.left != null
      invariant m.Valid() && m in node.Repr && m.Repr <= node.Repr
      invariant CopyOnWrite.MinNode(m.Model) == CopyOnWrite.MinNode(node.Model)
      decreases m.Repr
    {
      m := m.left;
    }
    if IsBST(node.Model) {
      CopyOnWrite.MinNodeIsLeast(node.Model);
    }
  }

  /**
   * The same walk, keeping the value last seen in `min`: it starts as the
   * node's value and takes each left child's value before stepping to it.
   */
  method MinValue(node: BstNode) returns (min: int)
    requires node.Valid()
    ensures min == CopyOnWrite.MinNode(node.Model).value
    ensures IsBST(node.Model) ==>
      min in Elements(node.Model) && forall x :: x in Elements(node.Model) ==> min <= x
  {
    var n: BstNode := node;
    min := n.value;
    while n.left != null
      invariant n.Valid() && min == n.value
      invariant CopyOnWrite.MinNode(n.Model) == CopyOnWrite.MinNode(node.Model)
      decreases n.Repr
    {
      min := n.left.value;
      n := n.left;
    }
    if IsBST(node.Model) {
      CopyOnWrite.MinNodeIsLeast(node.Model);
    }
  }

  // ---------------------------------------------------------------------------
  // Delete

  /**
   * Descends by comparison and stores the returned child back.  At the
   * matching node: without a left child the right child replaces it, without
   * a right child the left one does; with two children the node takes the
   * value of the leftmost node of its right subtree, and that value is then
   * deleted from the right subtree.  A null subtree is returned unchanged.
   */
  method DeleteRec(node: BstNode?, v: int) returns (r: BstNode?)
    requires ValidOpt(node)
    modifies ReprOf(node)
    ensures ValidOpt(r)
    ensures ModelOf(r) == CopyOnWrite.Remove(old(ModelOf(node)), v)
    ensures ReprOf(r) <= old(ReprOf(node))
    decreases ReprOf(node)
  {
    if node == null {
      return null;
    }
    Unfold(node);
    if v < node.value {
      var l := DeleteRec(node.left, v);
      node.left := l;
    } else if v > node.value {
      var rt := DeleteRec(node.right, v);
      node.right := rt;
    } else {
      if node.left == null {
        return node.right;
      }
      if node.right == null {
        return node.left;
      }
      var s := MinNode(node.right);
      node.value := s.value;
      var rt := DeleteRec(node.right, s.value);
      node.right := rt;
    }
    node.Model := Node(ModelOf(node.left), node.value, ModelOf(node.right));
    Fold(node);
    r := node;
  }

  // ---------------------------------------------------------------------------
  // Reading the tree

  /** Ordered descent, reading the nodes in place. */
  function SearchRec(node: BstNode?, v: int): (found: bool)
    requires ValidOpt(node)
    reads ReprOf(node)
    ensures found == CopyOnWrite.Search(ModelOf(node), v)
    decreases ReprOf(node)
  {
    if node == null then false
    else if v == node.value then true
    else if v < node.value then SearchRec(node.left, v)
    else SearchRec(node.right, v)
  }

  function HeightRec(node: BstNode?): (h: nat)
    requires ValidOpt(node)
    reads ReprOf(node)
    ensures h == Height(ModelOf(node))
    decreases ReprOf(node)
  {
    if node == null then 0
    else 1 + Max(HeightRec(node.left), HeightRec(node.right))
  }

  function CountRec(node: BstNode?): (n: nat)
    requires ValidOpt(node)
    reads ReprOf(node)
    ensures n == Count(ModelOf(node))
    decreases ReprOf(node)
  {
    if node == null then 0
    else 1 + CountRec(node.left) + CountRec(node.right)
  }

  /** Appends the subtree's values in left, node, right order to `out`. */
  method InorderRec(node: BstNode?, out: seq<int>) returns (res: seq<int>)
    requires ValidOpt(node)
    ensures res == out + InOrder(ModelOf(node))
    decreases ReprOf(node)
  {
    res := out;
    if node != null {
      Unfold(node);
      assert InOrder(ModelOf(node)) == InOrder(ModelOf(node.left)) + [node.value] + InOrder(ModelOf(node.right));
      res := InorderRec(node.left, res);
      res := res + [node.value];
      res := InorderRec(node.right, res);
    }
  }

  /** Appends the subtree's values in node, left, right order to `out`. */
  method PreorderRec(node: BstNode?, out: seq<int>) returns (res: seq<int>)
    requires ValidOpt(node)
    ensures res == out + PreOrder(ModelOf(node))
    decreases ReprOf(node)
  {
    res := out;
    if node != null {
      Unfold(node);
      assert PreOrder(ModelOf(node)) == [node.value] + PreOrder(ModelOf(node.left)) + PreOrder(ModelOf(node.right));
      res := res + [node.value];
      res := PreorderRec(node.left, res);
      res := PreorderRec(node.right, res);
    }
  }

  /** Appends the subtree's values in left, right, node order to `out`. */
  method PostorderRec(node: BstNode?, out: seq<int>) returns (res: seq<int>)
    requires ValidOpt(node)
    ensures res == out + PostOrder(ModelOf(node))
    decreases ReprOf(node)
  {
    res := out;
    if node != null {
      Unfold(node);
      assert PostOrder(ModelOf(node)) == PostOrder(ModelOf(node.left)) + PostOrder(ModelOf(node.right)) + [node.value];
      res := PostorderRec(node.left, res);
      res := PostorderRec(node.right, res);
      res := res + [node.value];
    }
  }

  // ---------------------------------------------------------------------------
  // Copies and layout of the JavaScript visualiser

  /** A structurally equal tree made only of new nodes. */
  method CloneTree(n: BstNode?) returns (c: BstNode?)
    requires ValidOpt(n)
    ensures ValidOpt(c) && ModelOf(c) == ModelOf(n) && fresh(ReprOf(c))
    decreases ReprOf(n)
  {
    if n == null {
      return null;
    }
    Unfold(n);
    c := new BstNode(n.value);
    var l := CloneTree(n.left);
    var r := CloneTree(n.right);
    Attach(c, l, r);
  }

  /** Hangs two disjoint well-formed subtrees under a childless node. */
  method Attach(c: BstNode, l: BstNode?, r: BstNode?)
    requires ValidOpt(l) && ValidOpt(r) && ReprOf(l) !! ReprOf(r)
    requires c !in ReprOf(l) && c !in ReprOf(r)
    modifies c
    ensures c.Valid() && c.value == old(c.value)
    ensures c.Model == Node(ModelOf(l), c.value, ModelOf(r)) && c.Repr == {c} + ReprOf(l) + ReprOf(r)
  {
    c.left, c.right := l, r;
    c.Repr := {c} + ReprOf(l) + ReprOf(r);
    c.Model := Node(ModelOf(l), c.value, ModelOf(r));
  }

  /**
   * The state update of the insert button: clone, insert in place into the
   * clone, clone again.  The method modifies no existing object, so the
   * tree it was given is left exactly as it was.
   */
  method CloneThenInsert(root: BstNode?, v: int) returns (r: BstNode?)
    requires ValidOpt(root)
    ensures ValidOpt(r) && fresh(ReprOf(r))
    ensures ModelOf(r) == CopyOnWrite.Insert(ModelOf(root), v)
  {
    var c := CloneTree(root);
    var i := InsertRec(c, v);
    r := CloneTree(i);
  }

  /** The state update of the delete button: clone, delete in place from the clone, clone again. */
  method CloneThenDelete(root: BstNode?, v: int) returns (r: BstNode?)
    requires ValidOpt(root)
    ensures ValidOpt(r) && fresh(ReprOf(r))
    ensures ModelOf(r) == CopyOnWrite.Remove(ModelOf(root), v)
  {
    var c := CloneTree(root);
    var d := DeleteRec(c, v);
    r := CloneTree(d);
  }

  /** Writes the layout entries of the subtree into `positions` and returns it. */
  method LayoutTree(node: BstNode?, depth: nat, left: real, right: real, positions: map<int, Layout.Position>)
    returns (out: map<int, Layout.Position>)
    requires ValidOpt(node)
    ensures out == positions + Layout.Positions(ModelOf(node), depth, left, right)
    decreases ReprOf(node)
  {
    out := positions;
    if node != null {
      Unfold(node);
      var x := Layout.Mid(left, right);
      out := out[node.value := Layout.Position(x, Layout.RowY(depth))];
      out := LayoutTree(node.left, depth + 1, left, x, out);
      out := LayoutTree(node.right, depth + 1, x, right, out);
      Layout.WriteThenSubtrees(positions, node.Model, depth, left, right);
    }
  }

  // ---------------------------------------------------------------------------
  // Breadth-first queues of nodes

  /**
   * The children a dequeued node enqueues: left, then right, when present.
   * This is the specification `PushChildren` is proved against and the
   * term the queue lemmas below reason with, since they cannot call it.
   */
  function Present(n: BstNode): seq<BstNode>
    reads n
  {
    (if n.left != null then [n.left] else []) + (if n.right != null then [n.right] else [])
  }

  /** Enqueues the node's left child, then its right child, each only when present. */
  method PushChildren(queue: seq<BstNode>, n: BstNode) returns (q: seq<BstNode>)
    ensures q == queue + Present(n)
  {
    q := queue;
    if n.left != null {
      q := q + [n.left];
    }
    if n.right != null {
      q := q + [n.right];
    }
  }

  /** Each queued node is well formed and stands for the tree at the same place in `forest`. */
  ghost predicate Tracks(queue: seq<BstNode>, forest: seq<Tree>)
    reads set k | 0 <= k < |queue| :: queue[k]
    reads set k, o | 0 <= k < |queue| && o in queue[k].Repr :: o
  {
    |queue| == |forest| &&
    forall k :: 0 <= k < |queue| ==> queue[k].Valid() && queue[k].Model == forest[k]
  }

  /** Dequeuing the front node and enqueuing its present children mirrors the same step on trees. */
  lemma QueueStep(queue: seq<BstNode>, forest: seq<Tree>)
    requires queue != [] && Tracks(queue, forest)
    ensures forest[0] == queue[0].Model && forest[0].Node? && Levels.Root(forest[0]) == [queue[0].value]
    ensures Tracks(queue[1..] + Present(queue[0]), forest[1..] + Levels.Kids(forest[0]))
  {
    var n := queue[0];
    assert n.Valid() && n.Model == forest[0];
    var a, b := queue[1..], Present(n);
    var fa, fb := forest[1..], Levels.Kids(forest[0]);
    var fl := if n.left != null then [n.left.Model] else [];
    var fr := if n.right != null then [n.right.Model] else [];
    if n.left != null {
      assert n.left.Valid();
    }
    if n.right != null {
      assert n.right.Valid();
    }
    assert Levels.NonLeaf(n.Model.left) == fl;
    assert Levels.NonLeaf(n.Model.right) == fr;
    assert fb == fl + fr;
    forall k | 0 <= k < |b|
      ensures b[k].Valid() && b[k].Model == fb[k]
    {
      if n.left != null && k == 0 {
        assert b[k] == n.left;
      } else {
        assert b[k] == n.right;
      }
    }
    forall k | 0 <= k < |a + b|
      ensures (a + b)[k].Valid() && (a + b)[k].Model == (fa + fb)[k]
    {
      if k < |a| {
        assert (a + b)[k] == queue[k + 1] && (fa + fb)[k] == forest[k + 1];
      } else {
        assert (a + b)[k] == b[k - |a|] && (fa + fb)[k] == fb[k - |a|];
      }
    }
  }
}

/**
 * The tree object of the class-based ports: a single `root` pointer that
 * insert and delete rebind to whatever the recursive helper returns, and
 * queries that read the nodes in place.  Its invariant is that the node
 * structure is well formed and the value tree it stands for is a BST.
 */
module BstClass {
  import opened TreeModel
  import opened Levels
  import CopyOnWrite
  import opened Linked

  class Bst {
    var root: BstNode?
    ghost var Repr: set<object>

    ghost predicate Valid()
      reads this, Repr
    {
      this in Repr &&
      (root != null ==> root in Repr && root.Repr <= Repr && this !in root.Repr && root.Valid()) &&
      IsBST(ModelOf(root))
    }

    /** The value tree the object stands for. */
    ghost function Contents(): Tree
      reads this, root
    {
      ModelOf(root)
    }

    /** An empty tree. */
    constructor ()
      ensures Valid() && fresh(Repr) && Contents() == Leaf
    {
      root := null;
      Repr := {this};
    }

    /** Adds `v` when absent; a duplicate is ignored. */
    method Insert(v: int)
      requires Valid()
      modifies Repr
      ensures Valid() && fresh(Repr - old(Repr)) && root != null
      ensures Contents() == CopyOnWrite.Insert(old(Contents()), v)
      ensures Elements(Contents()) == old(Elements(Contents())) + {v}
      ensures TreeModel.Count(Contents()) == if v in old(Elements(Contents())) then old(TreeModel.Count(Contents())) else old(TreeModel.Count(Contents())) + 1
    {
      ghost var before := ModelOf(root);
      var r := InsertRec(root, v);
      root := r;
      Repr := Repr + r.Repr;
      CopyOnWrite.InsertPreservesBST(before, v);
      CopyOnWrite.InsertElements(before, v);
      CopyOnWrite.InsertCount(before, v);
    }

    /** Removes `v` when present; an absent value leaves the tree as it was. */
    method Delete(v: int)
      requires Valid()
      modifies Repr
      ensures Valid() && Repr <= old(Repr)
      ensures Contents() == CopyOnWrite.Remove(old(Contents()), v)
      ensures Elements(Contents()) == old(Elements(Contents())) - {v}
      ensures TreeModel.Count(Contents()) == if v in old(Elements(Contents())) then old(TreeModel.Count(Contents())) - 1 else old(TreeModel.Count(Contents()))
    {
      ghost var before := ModelOf(root);
      var r := DeleteRec(root, v);
      root := r;
      CopyOnWrite.RemovePreservesBST(before, v);
      CopyOnWrite.RemoveElements(before, v);
      CopyOnWrite.RemoveCount(before, v);
    }

    /** Releases every node: the tree is empty afterwards. */
    method Free()
      requires Valid()
      modifies this
      ensures Valid() && root == null && Contents() == Leaf
    {
      root := null;
      Repr := {this};
    }

    method Search(v: int) returns (found: bool)
      requires Valid()
      ensures found <==> v in Elements(Contents())
    {
      found := SearchRec(root, v);
      CopyOnWrite.SearchCorrect(ModelOf(root), v);
    }

    method Height() returns (h: nat)
      requires Valid()
      ensures h == TreeModel.Height(Contents())
      ensures h <= TreeModel.Count(Contents())
    {
      h := HeightRec(root);
      HeightAtMostCount(ModelOf(root));
    }

    /** The number of nodes, which on a BST is the number of distinct stored values. */
    method Count() returns (n: nat)
      requires Valid()
      ensures n == TreeModel.Count(Contents()) && n == |Elements(Contents())|
    {
      n := CountRec(root);
      BstCountIsCardinality(ModelOf(root));
    }

    method IsEmpty() returns (e: bool)
      requires Valid()
      ensures e <==> Contents() == Leaf
      ensures e <==> TreeModel.Count(Contents()) == 0
    {
      e := root == null;
    }

    /** The stored values in strictly ascending order, one per node. */
    method Inorder() returns (s: seq<int>)
      requires Valid()
      ensures s == InOrder(Contents())
      ensures Ascending(s) && |s| == TreeModel.Count(Contents())
      ensures forall x :: x in s <==> x in Elements(Contents())
    {
      s := InorderRec(root, []);
      BstIffAscending(ModelOf(root));
      TraversalsAgree(ModelOf(root));
      InOrderElements(ModelOf(root));
    }

    /** The stored values, root first; a permutation of the in-order sequence. */
    method Preorder() returns (s: seq<int>)
      requires Valid()
      ensures s == PreOrder(Contents())
      ensures multiset(s) == multiset(InOrder(Contents()))
      ensures Contents().Node? ==> s[0] == Contents().value
    {
      s := PreorderRec(root, []);
      TraversalsAgree(ModelOf(root));
    }

    /** The stored values, root last; a permutation of the in-order sequence. */
    method Postorder() returns (s: seq<int>)
      requires Valid()
      ensures s == PostOrder(Contents())
      ensures multiset(s) == multiset(InOrder(Contents()))
      ensures Contents().Node? ==> s[|s| - 1] == Contents().value
    {
      s := PostorderRec(root, []);
      TraversalsAgree(ModelOf(root));
    }

    /**
     * Breadth-first traversal grouped by depth: each round takes as many
     * nodes off the front of the queue as it held at the start of the round,
     * records their values as one level, and enqueues their present children.
     * The result is the grouped level order of the tree, which
     * `Levels.LevelOrderCorrect` characterises: level i lists the values at
     * depth i from left to right, and there are as many levels as the height.
     */
    method LevelOrder() returns (levels: seq<seq<int>>)
      requires Valid()
      ensures levels == Levels.LevelOrder(Contents())
      ensures |levels| == TreeModel.Height(Contents())
      ensures forall i :: 0 <= i < |levels| ==> levels[i] == AtDepth(Contents(), i)
    {
      levels := [];
      if root != null {
        var queue: seq<BstNode> := [root];
        ghost var forest: seq<Tree> := [root.Model];
        while queue != []
          invariant Tracks(queue, forest)
          invariant levels + LevelsOf(forest) == Levels.LevelOrder(Contents())
          decreases Size(forest)
        {
          var size := |queue|;
          var level: seq<int> := [];
          ghost var front := forest;
          var i := 0;
          while i < size
            invariant 0 <= i <= size == |front|
            invariant Tracks(queue, forest)
            invariant forest == front[i..] + Children(front[..i])
            invariant level == Roots(front[..i]) && |level| == i
          {
            ghost var before := queue;
            var node := queue[0];
            queue := queue[1..];
            level := level + [node.value];
            queue := PushChildren(queue, node);
            QueueStep(before, forest);
            RoundStep(front, i, forest);
            forest := forest[1..] + Kids(forest[0]);
            i := i + 1;
          }
          RoundEnd(levels, front, level, forest);
          levels := levels + [level];
        }
      }
      LevelOrderCorrect(Contents());
    }

    /**
     * Breadth-first traversal, one node per step.  By `Levels.BfsOrderCorrect`
     * it visits every value once, level after level.
     */
    method LevelOrderFlat() returns (visited: seq<int>)
      requires Valid()
      ensures visited == BfsOrder([Contents()])
      ensures visited == Flatten(Levels.LevelOrder(Contents()))
      ensures multiset(visited) == multiset(InOrder(Contents()))
    {
      visited := [];
      if root != null {
        var queue: seq<BstNode> := [root];
        ghost var forest: seq<Tree> := [root.Model];
        while queue != []
          invariant Tracks(queue, forest)
          invariant visited + BfsOrder(forest) == BfsOrder([Contents()])
          decreases Size(forest)
        {
          ghost var before := queue;
          ghost var seen := visited;
          var current := queue[0];
          queue := queue[1..];
          visited := visited + [current.value];
          queue := PushChildren(queue, current);
          QueueStep(before, forest);
          FlatStep(seen, current.value, forest);
          forest := forest[1..] + Kids(forest[0]);
        }
      }
      BfsOrderCorrect(Contents());
    }
  }
}

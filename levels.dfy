/**
 * Breadth-first traversal.  The ports drain a FIFO queue of non-null nodes:
 * the grouped variant takes the whole queue as one level and enqueues the
 * children of that level, the flat variant takes one node at a time.  Both
 * are specified here over a forest (the trees in the queue, front first);
 * the grouped result is then characterised by depth, independently of any
 * queue: level i lists the values at depth i from left to right.
 */
module Levels {
  import opened TreeModel

  /** The values at depth `d` of `t`, from left to right. */
  function AtDepth(t: Tree, d: nat): seq<int>
  {
    match t
    case Leaf => []
    case Node(l, v, r) => if d == 0 then [v] else AtDepth(l, d - 1) + AtDepth(r, d - 1)
  }

  /** A child is enqueued only when it is present. */
  function NonLeaf(t: Tree): seq<Tree>
  {
    if t.Leaf? then [] else [t]
  }

  /** What dequeuing `t` enqueues: its left child, then its right child, when present. */
  function Kids(t: Tree): seq<Tree>
  {
    match t
    case Leaf => []
    case Node(l, _, r) => NonLeaf(l) + NonLeaf(r)
  }

  /** What dequeuing `t` emits: its value, when it is a node. */
  function Root(t: Tree): seq<int>
  {
    if t.Node? then [t.value] else []
  }

  /** The values at the roots of a forest, front first. */
  function Roots(f: seq<Tree>): seq<int>
  {
    if f == [] then [] else Root(f[0]) + Roots(f[1..])
  }

  /** The present children of a forest's roots, in queue order. */
  function Children(f: seq<Tree>): seq<Tree>
  {
    if f == [] then [] else Kids(f[0]) + Children(f[1..])
  }

  /** Total number of nodes in a forest. */
  function Size(f: seq<Tree>): nat
  {
    if f == [] then 0 else Count(f[0]) + Size(f[1..])
  }

  function MaxHeight(f: seq<Tree>): nat
  {
    if f == [] then 0 else Max(Height(f[0]), MaxHeight(f[1..]))
  }

  /** The values at depth `d` across a forest, front tree first. */
  function ForestAtDepth(f: seq<Tree>, d: nat): seq<int>
  {
    if f == [] then [] else AtDepth(f[0], d) + ForestAtDepth(f[1..], d)
  }

  function Bag(f: seq<Tree>): multiset<int>
  {
    if f == [] then multiset{} else multiset(InOrder(f[0])) + Bag(f[1..])
  }

  function Flatten(ls: seq<seq<int>>): seq<int>
  {
    if ls == [] then [] else ls[0] + Flatten(ls[1..])
  }

  /** One level per round: the roots of the queue, then the levels of their children. */
  function LevelsOf(f: seq<Tree>): seq<seq<int>>
    decreases Size(f)
  {
    if Roots(f) == [] then []
    else
      SizeChildren(f);
      [Roots(f)] + LevelsOf(Children(f))
  }

  /** The grouped level-order of a tree; empty for the empty tree. */
  function LevelOrder(t: Tree): seq<seq<int>>
  {
    LevelsOf([t])
  }

  /** One node per step: dequeue the front, emit its value, enqueue its present children. */
  function BfsOrder(f: seq<Tree>): seq<int>
    decreases Size(f), |f|
  {
    if f == [] then []
    else
      SizeAppend(f[1..], Kids(f[0]));
      SizeKids(f[0]);
      assert Size(f) == Count(f[0]) + Size(f[1..]);
      Root(f[0]) + BfsOrder(f[1..] + Kids(f[0]))
  }

  // ---------------------------------------------------------------------------
  // Forest arithmetic

  lemma {:induction false} SizeAppend(a: seq<Tree>, b: seq<Tree>)
    ensures Size(a + b) == Size(a) + Size(b)
  {
    if a != [] {
      assert (a + b)[1..] == a[1..] + b;
      SizeAppend(a[1..], b);
    } else {
      assert a + b == b;
    }
  }

  /** A forest of one tree, or of one present child, is that tree. */
  lemma SingleHeight(t: Tree)
    ensures MaxHeight([t]) == Height(t) && MaxHeight(NonLeaf(t)) == Height(t)
  {
    assert [t][1..] == [];
  }

  lemma SingleBag(t: Tree)
    ensures Bag([t]) == multiset(InOrder(t))
  {
    assert [t][1..] == [];
  }

  lemma SingleAtDepth(t: Tree, d: nat)
    ensures ForestAtDepth([t], d) == AtDepth(t, d)
    ensures ForestAtDepth(NonLeaf(t), d) == AtDepth(t, d)
  {
    assert [t][1..] == [];
  }

  lemma SizeKids(t: Tree)
    ensures Size(Kids(t)) == if t.Node? then Count(t) - 1 else 0
  {
    if t.Node? {
      SizeAppend(NonLeaf(t.left), NonLeaf(t.right));
    }
  }

  lemma {:induction false} SizeChildren(f: seq<Tree>)
    ensures Size(Children(f)) + |Roots(f)| == Size(f)
  {
    if f != [] {
      SizeChildren(f[1..]);
      SizeAppend(Kids(f[0]), Children(f[1..]));
      SizeKids(f[0]);
    }
  }

  lemma {:induction false} RootsAppend(a: seq<Tree>, b: seq<Tree>)
    ensures Roots(a + b) == Roots(a) + Roots(b)
  {
    if a == [] {
      assert a + b == b;
    } else {
      assert (a + b)[0] == a[0] && (a + b)[1..] == a[1..] + b;
      RootsAppend(a[1..], b);
    }
  }

  lemma {:induction false} ChildrenAppend(a: seq<Tree>, b: seq<Tree>)
    ensures Children(a + b) == Children(a) + Children(b)
  {
    if a == [] {
      assert a + b == b;
    } else {
      assert (a + b)[0] == a[0] && (a + b)[1..] == a[1..] + b;
      ChildrenAppend(a[1..], b);
    }
  }

  lemma {:induction false} AtDepthAppend(a: seq<Tree>, b: seq<Tree>, d: nat)
    ensures ForestAtDepth(a + b, d) == ForestAtDepth(a, d) + ForestAtDepth(b, d)
  {
    if a == [] {
      assert a + b == b;
    } else {
      assert (a + b)[0] == a[0] && (a + b)[1..] == a[1..] + b;
      AtDepthAppend(a[1..], b, d);
    }
  }

  lemma {:induction false} MaxHeightAppend(a: seq<Tree>, b: seq<Tree>)
    ensures MaxHeight(a + b) == Max(MaxHeight(a), MaxHeight(b))
  {
    if a == [] {
      assert a + b == b;
    } else {
      assert (a + b)[0] == a[0] && (a + b)[1..] == a[1..] + b;
      MaxHeightAppend(a[1..], b);
    }
  }

  lemma {:induction false} BagAppend(a: seq<Tree>, b: seq<Tree>)
    ensures Bag(a + b) == Bag(a) + Bag(b)
  {
    if a == [] {
      assert a + b == b;
    } else {
      assert (a + b)[0] == a[0] && (a + b)[1..] == a[1..] + b;
      BagAppend(a[1..], b);
    }
  }

  /** Dequeuing one more tree of a round adds its root to the level and its children to the queue. */
  lemma PrefixStep(f: seq<Tree>, i: nat)
    requires i < |f|
    ensures Roots(f[..i + 1]) == Roots(f[..i]) + Root(f[i])
    ensures Children(f[..i + 1]) == Children(f[..i]) + Kids(f[i])
  {
    assert f[..i + 1] == f[..i] + [f[i]];
    RootsAppend(f[..i], [f[i]]);
    ChildrenAppend(f[..i], [f[i]]);
    assert [f[i]][1..] == [];
  }

  /**
   * Within a round over `front`, after `i` dequeues the queue holds the
   * trees not yet dequeued, then the children of those dequeued.  One more
   * dequeue keeps that shape and adds one root to the level.
   */
  lemma RoundStep(front: seq<Tree>, i: nat, forest: seq<Tree>)
    requires i < |front| && forest == front[i..] + Children(front[..i])
    ensures forest != [] && forest[0] == front[i]
    ensures forest[1..] + Kids(forest[0]) == front[i + 1..] + Children(front[..i + 1])
    ensures Roots(front[..i + 1]) == Roots(front[..i]) + Root(front[i])
  {
    PrefixStep(front, i);
    DequeueAppend(front[i..], Children(front[..i]), Kids(front[i]));
    assert front[i..][1..] == front[i + 1..];
  }

  /**
   * At the end of a round over a non-empty queue of non-empty trees, the
   * level holds the roots and the queue their children: the level is the
   * first of the levels of `front`, the rest are the levels of the new queue,
   * and the queue's trees have fewer nodes.
   */
  lemma RoundEnd(levels: seq<seq<int>>, front: seq<Tree>, level: seq<int>, forest: seq<Tree>)
    requires front != [] && front[0].Node?
    requires level == Roots(front[..|front|]) && forest == front[|front|..] + Children(front[..|front|])
    ensures levels + [level] + LevelsOf(forest) == levels + LevelsOf(front)
    ensures Size(forest) < Size(front)
  {
    assert front[..|front|] == front && front[|front|..] == [];
    assert forest == Children(front);
    assert Roots(front) == Root(front[0]) + Roots(front[1..]);
    SizeChildren(front);
    assert LevelsOf(front) == [level] + LevelsOf(forest);
  }

  /**
   * One step of the flat traversal, seen from the output: emitting the front
   * root `v` and continuing with the new queue produces what the old queue
   * would have, and the queue's trees have one node fewer.
   */
  lemma FlatStep(visited: seq<int>, v: int, forest: seq<Tree>)
    requires forest != [] && forest[0].Node? && Root(forest[0]) == [v]
    ensures visited + [v] + BfsOrder(forest[1..] + Kids(forest[0])) == visited + BfsOrder(forest)
    ensures Size(forest[1..] + Kids(forest[0])) < Size(forest)
  {
    var rest := BfsOrder(forest[1..] + Kids(forest[0]));
    assert BfsOrder(forest) == Root(forest[0]) + rest;
    DequeueSize(forest);
    assert visited + [v] + rest == visited + ([v] + rest);
  }

  /** Taking the front off `a + b` and appending `c` leaves the rest of `a`, then `b`, then `c`. */
  lemma DequeueAppend(a: seq<Tree>, b: seq<Tree>, c: seq<Tree>)
    requires a != []
    ensures (a + b)[1..] + c == a[1..] + (b + c)
  {
    assert (a + b)[1..] == a[1..] + b;
  }

  /** Dequeuing a node and enqueuing its children leaves one node fewer in the queue's trees. */
  lemma DequeueSize(f: seq<Tree>)
    requires f != [] && f[0].Node?
    ensures Size(f[1..] + Kids(f[0])) == Size(f) - 1
  {
    SizeAppend(f[1..], Kids(f[0]));
    SizeKids(f[0]);
  }

  lemma {:induction false} NoRootsNoChildren(f: seq<Tree>)
    requires Roots(f) == []
    ensures Children(f) == [] && MaxHeight(f) == 0 && Size(f) == 0
  {
    if f != [] {
      NoRootsNoChildren(f[1..]);
    }
  }

  /** The roots of a forest are its depth-0 values (by induction on `f`, which Dafny performs). */
  lemma RootsAreDepthZero(f: seq<Tree>)
    ensures Roots(f) == ForestAtDepth(f, 0)
  {
  }

  /** The children of a forest hold, at depth `d`, what the forest holds at depth `d + 1`. */
  lemma {:induction false} ChildrenAtDepth(f: seq<Tree>, d: nat)
    ensures ForestAtDepth(Children(f), d) == ForestAtDepth(f, d + 1)
  {
    if f != [] {
      ChildrenAtDepth(f[1..], d);
      AtDepthAppend(Kids(f[0]), Children(f[1..]), d);
      if f[0].Node? {
        AtDepthAppend(NonLeaf(f[0].left), NonLeaf(f[0].right), d);
        SingleAtDepth(f[0].left, d);
        SingleAtDepth(f[0].right, d);
      }
    }
  }

  lemma {:induction false} ChildrenMaxHeight(f: seq<Tree>)
    ensures MaxHeight(Children(f)) == if MaxHeight(f) == 0 then 0 else MaxHeight(f) - 1
  {
    if f != [] {
      ChildrenMaxHeight(f[1..]);
      MaxHeightAppend(Kids(f[0]), Children(f[1..]));
      if f[0].Node? {
        MaxHeightAppend(NonLeaf(f[0].left), NonLeaf(f[0].right));
        SingleHeight(f[0].left);
        SingleHeight(f[0].right);
      }
    }
  }

  lemma {:induction false} ChildrenBag(f: seq<Tree>)
    ensures multiset(Roots(f)) + Bag(Children(f)) == Bag(f)
  {
    if f != [] {
      ChildrenBag(f[1..]);
      BagAppend(Kids(f[0]), Children(f[1..]));
      KidsBag(f[0]);
    }
  }

  /** Dequeuing `t` emits and enqueues between them exactly the values of `t`. */
  lemma KidsBag(t: Tree)
    ensures multiset(Root(t)) + Bag(Kids(t)) == multiset(InOrder(t))
  {
    if t.Node? {
      BagAppend(NonLeaf(t.left), NonLeaf(t.right));
      NonLeafBag(t.left);
      NonLeafBag(t.right);
      assert InOrder(t) == InOrder(t.left) + [t.value] + InOrder(t.right);
    }
  }

  lemma NonLeafBag(t: Tree)
    ensures Bag(NonLeaf(t)) == multiset(InOrder(t))
  {
    if t.Node? {
      assert [t][1..] == [];
    }
  }

  // ---------------------------------------------------------------------------
  // The grouped traversal

  /** Grouped level-order of a forest has as many levels as its tallest tree is high. */
  lemma {:induction false} LevelsLength(f: seq<Tree>)
    ensures |LevelsOf(f)| == MaxHeight(f)
    decreases Size(f)
  {
    if Roots(f) == [] {
      NoRootsNoChildren(f);
    } else {
      SizeChildren(f);
      LevelsLength(Children(f));
      ChildrenMaxHeight(f);
      RootsIffFlat(f);
    }
  }

  /** Level i of the grouped level-order of a forest lists its depth-i values, front to back. */
  lemma {:induction false} LevelsAtDepth(f: seq<Tree>, i: nat)
    requires i < |LevelsOf(f)|
    ensures LevelsOf(f)[i] == ForestAtDepth(f, i)
    decreases Size(f)
  {
    var c := Children(f);
    SizeChildren(f);
    assert LevelsOf(f) == [Roots(f)] + LevelsOf(c);
    if i == 0 {
      RootsAreDepthZero(f);
    } else {
      LevelsAtDepth(c, i - 1);
      ChildrenAtDepth(f, i - 1);
    }
  }

  lemma {:induction false} RootsIffFlat(f: seq<Tree>)
    ensures Roots(f) == [] <==> MaxHeight(f) == 0
  {
    if f != [] {
      RootsIffFlat(f[1..]);
    }
  }

  /** The grouped levels together hold every value of the forest exactly once. */
  lemma {:induction false} LevelsBag(f: seq<Tree>)
    ensures multiset(Flatten(LevelsOf(f))) == Bag(f)
    decreases Size(f)
  {
    if Roots(f) == [] {
      NoRootsNoChildren(f);
      ChildrenBag(f);
    } else {
      SizeChildren(f);
      LevelsBag(Children(f));
      ChildrenBag(f);
      assert ([Roots(f)] + LevelsOf(Children(f)))[1..] == LevelsOf(Children(f));
    }
  }

  /**
   * Level-order of a tree: empty for the empty tree; otherwise one level per
   * unit of height, level i holding exactly the depth-i values from left to
   * right, and all levels together holding each stored value once.
   */
  lemma LevelOrderCorrect(t: Tree)
    ensures t == Leaf ==> LevelOrder(t) == []
    ensures |LevelOrder(t)| == Height(t)
    ensures forall i :: 0 <= i < Height(t) ==> LevelOrder(t)[i] == AtDepth(t, i)
    ensures multiset(Flatten(LevelOrder(t))) == multiset(InOrder(t))
    ensures |Flatten(LevelOrder(t))| == Count(t)
  {
    LevelsLength([t]);
    LevelsBag([t]);
    SingleHeight(t);
    SingleBag(t);
    forall i | 0 <= i < Height(t) ensures LevelOrder(t)[i] == AtDepth(t, i) {
      LevelsAtDepth([t], i);
      SingleAtDepth(t, i);
    }
    TraversalsAgree(t);
    assert |multiset(Flatten(LevelOrder(t)))| == |Flatten(LevelOrder(t))|;
  }

  /** Level-order is the only sequence of levels with one level per unit of height, each holding its depth's values. */
  lemma LevelOrderUnique(t: Tree, ls: seq<seq<int>>)
    requires |ls| == Height(t)
    requires forall i :: 0 <= i < |ls| ==> ls[i] == AtDepth(t, i)
    ensures LevelOrder(t) == ls
  {
    LevelOrderCorrect(t);
  }

  // ---------------------------------------------------------------------------
  // The flat traversal

  /**
   * Running the one-node-at-a-time queue over `f` followed by `g` first
   * emits the roots of `f`, and then behaves as a queue holding `g` followed
   * by the children of `f`.
   */
  lemma {:induction false} BfsSplit(f: seq<Tree>, g: seq<Tree>)
    ensures BfsOrder(f + g) == Roots(f) + BfsOrder(g + Children(f))
    decreases |f|
  {
    if f == [] {
      assert f + g == g && g + Children(f) == g;
    } else {
      BfsFront(f, g);
      BfsSplit(f[1..], g + Kids(f[0]));
      ForestFront(f, g);
      ConcatAssoc(Root(f[0]), Roots(f[1..]), BfsOrder(g + Children(f)));
    }
  }

  /** Dequeuing the front of `f` followed by `g`. */
  lemma BfsFront(f: seq<Tree>, g: seq<Tree>)
    requires f != []
    ensures BfsOrder(f + g) == Root(f[0]) + BfsOrder(f[1..] + (g + Kids(f[0])))
  {
    assert (f + g)[0] == f[0];
    assert BfsOrder(f + g) == Root(f[0]) + BfsOrder((f + g)[1..] + Kids(f[0]));
    DequeueAppend(f, g, Kids(f[0]));
  }

  /**
   * The roots and children of a non-empty forest are those of its front
   * tree, then those of the rest.  Kept apart from `BfsSplit` so that its
   * unfolding of `Roots` and `Children` does not meet the unfolding of
   * `BfsOrder` there.
   */
  lemma ForestFront(f: seq<Tree>, g: seq<Tree>)
    requires f != []
    ensures Roots(f) == Root(f[0]) + Roots(f[1..])
    ensures g + Kids(f[0]) + Children(f[1..]) == g + Children(f)
  {
  }

  /**
   * Regrouping a concatenation, stated on opaque operands so that
   * `BfsSplit` does not unfold the `BfsOrder` terms it is applied to.
   */
  lemma ConcatAssoc(a: seq<int>, b: seq<int>, c: seq<int>)
    ensures a + (b + c) == (a + b) + c
  {
  }

  /** The flat traversal emits exactly the grouped levels, concatenated. */
  lemma {:induction false} BfsIsFlattenedLevels(f: seq<Tree>)
    ensures BfsOrder(f) == Flatten(LevelsOf(f))
    decreases Size(f)
  {
    BfsSplit(f, []);
    assert f + [] == f && [] + Children(f) == Children(f);
    if Roots(f) == [] {
      NoRootsNoChildren(f);
    } else {
      SizeChildren(f);
      BfsIsFlattenedLevels(Children(f));
      assert ([Roots(f)] + LevelsOf(Children(f)))[1..] == LevelsOf(Children(f));
    }
  }

  /** The flat traversal of a tree visits every node exactly once, level by level. */
  lemma BfsOrderCorrect(t: Tree)
    ensures BfsOrder([t]) == Flatten(LevelOrder(t))
    ensures multiset(BfsOrder([t])) == multiset(InOrder(t))
  {
    BfsIsFlattenedLevels([t]);
    LevelOrderCorrect(t);
  }
}

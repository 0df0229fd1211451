/**
 * The demonstration scenarios of the ports, evaluated on the value model:
 * the eleven-value tree of the C, C++, Java, JavaScript and Python demos
 * with their deletions and of the visualisers' demo button with its canvas
 * layout, and the seven-value tree of the Rust, C#, Swift, Kotlin and Go
 * demos.
 */
module Demo {
  import opened TreeModel
  import opened CopyOnWrite
  import opened Levels
  import opened Layout

  function Leaf1(v: int): Tree
  {
    Node(Leaf, v, Leaf)
  }

  /** The tree the seven demo insertions build. */
  const SevenTree: Tree :=
    Node(Node(Node(Leaf, 20, Leaf), 30, Node(Leaf, 40, Leaf)), 50, Node(Node(Leaf, 60, Leaf), 70, Node(Leaf, 80, Leaf)))

  /** The tree the eleven demo insertions build. */
  const ElevenTree: Tree :=
    Node(Node(Node(Node(Leaf, 10, Leaf), 20, Node(Leaf, 25, Leaf)), 30, Node(Node(Leaf, 35, Leaf), 40, Node(Leaf, 45, Leaf))),
         50,
         Node(Node(Leaf, 60, Leaf), 70, Node(Leaf, 80, Leaf)))

  /** 50, 30, 70, 20, 40, 60, 80 inserted in that order into an empty tree. */
  function Seven(): Tree
  {
    Insert(Insert(Insert(Insert(Insert(Insert(Insert(Leaf, 50), 30), 70), 20), 40), 60), 80)
  }

  /** The seven-value tree, then 10, 25, 35, 45 inserted in that order. */
  function Eleven(): Tree
  {
    Insert(Insert(Insert(Insert(Seven(), 10), 25), 35), 45)
  }

  lemma SevenShape()
    ensures Seven() == SevenTree
  {
    var t := Insert(Leaf, 50);
    assert t == Leaf1(50);
    t := Insert(t, 30);
    assert t == Node(Leaf1(30), 50, Leaf);
    t := Insert(t, 70);
    assert t == Node(Leaf1(30), 50, Leaf1(70));
    t := Insert(t, 20);
    assert t == Node(Node(Leaf1(20), 30, Leaf), 50, Leaf1(70));
    t := Insert(t, 40);
    assert t == Node(Node(Leaf1(20), 30, Leaf1(40)), 50, Leaf1(70));
    t := Insert(t, 60);
    assert t == Node(Node(Leaf1(20), 30, Leaf1(40)), 50, Node(Leaf1(60), 70, Leaf));
    t := Insert(t, 80);
  }

  lemma ElevenShape()
    ensures Eleven() == ElevenTree
  {
    SevenShape();
    var t := Insert(Seven(), 10);
    assert t == Node(Node(Node(Leaf1(10), 20, Leaf), 30, Leaf1(40)), 50, Node(Leaf1(60), 70, Leaf1(80)));
    t := Insert(t, 25);
    assert t == Node(Node(Node(Leaf1(10), 20, Leaf1(25)), 30, Leaf1(40)), 50, Node(Leaf1(60), 70, Leaf1(80)));
    t := Insert(t, 35);
    assert t == Node(Node(Node(Leaf1(10), 20, Leaf1(25)), 30, Node(Leaf1(35), 40, Leaf)), 50, Node(Leaf1(60), 70, Leaf1(80)));
    t := Insert(t, 45);
  }

  /** The seven-value demo prints 20 to 80 in order and reports height 3; 40 is found. */
  lemma SevenDemo()
    ensures InOrder(SevenTree) == [20, 30, 40, 50, 60, 70, 80]
    ensures TreeModel.Height(SevenTree) == 3 && Search(SevenTree, 40)
  {
  }

  /**
   * The canvas layout of the tree the visualisers' demo button loads (the
   * eleven values): the root entry, then the left subtree's entries, then
   * the right subtree's, each half of the canvas halved again per row.
   */
  lemma ElevenLayout()
    ensures CanvasLayout(ElevenTree) == map[50 := Position(450.0, 50.0)]
      + (map[30 := Position(225.0, 130.0)]
         + (map[20 := Position(112.5, 210.0)] + map[10 := Position(56.25, 290.0)] + map[25 := Position(168.75, 290.0)])
         + (map[40 := Position(337.5, 210.0)] + map[35 := Position(281.25, 290.0)] + map[45 := Position(393.75, 290.0)]))
      + (map[70 := Position(675.0, 130.0)] + map[60 := Position(562.5, 210.0)] + map[80 := Position(787.5, 210.0)])
  {
    ElevenLeftLayout();
    ThreeLayout(60, 70, 80, 1, 450.0, 900.0);
  }

  lemma ElevenLeftLayout()
    ensures Positions(ElevenTree.left, 1, 0.0, 450.0)
      == map[30 := Position(225.0, 130.0)]
         + (map[20 := Position(112.5, 210.0)] + map[10 := Position(56.25, 290.0)] + map[25 := Position(168.75, 290.0)])
         + (map[40 := Position(337.5, 210.0)] + map[35 := Position(281.25, 290.0)] + map[45 := Position(393.75, 290.0)])
  {
    ThreeLayout(10, 20, 25, 2, 0.0, 225.0);
    ThreeLayout(35, 40, 45, 2, 225.0, 450.0);
  }

  /** A node with two leaf children: its entry, then the left leaf's, then the right leaf's. */
  lemma ThreeLayout(a: int, b: int, c: int, depth: nat, left: real, right: real)
    ensures Positions(Node(Leaf1(a), b, Leaf1(c)), depth, left, right)
      == map[b := Position(Mid(left, right), RowY(depth))]
         + map[a := Position(Mid(left, Mid(left, right)), RowY(depth + 1))]
         + map[c := Position(Mid(Mid(left, right), right), RowY(depth + 1))]
  {
    LeafLayout(a, depth + 1, left, Mid(left, right));
    LeafLayout(c, depth + 1, Mid(left, right), right);
  }

  lemma LeafLayout(v: int, depth: nat, left: real, right: real)
    ensures Positions(Leaf1(v), depth, left, right) == map[v := Position((left + right) / 2.0, (depth * 80 + 50) as real)]
  {
  }

  /** The in-order line the C++, JavaScript and Python demos print for the eleven-value tree. */
  lemma ElevenInOrder()
    ensures InOrder(ElevenTree) == [10, 20, 25, 30, 35, 40, 45, 50, 60, 70, 80]
  {
    assert InOrder(ElevenTree.left) == [10, 20, 25, 30, 35, 40, 45];
  }

  lemma ElevenPreOrder()
    ensures PreOrder(ElevenTree) == [50, 30, 20, 10, 25, 40, 35, 45, 70, 60, 80]
  {
    assert PreOrder(ElevenTree.left) == [30, 20, 10, 25, 40, 35, 45];
  }

  lemma ElevenPostOrder()
    ensures PostOrder(ElevenTree) == [10, 25, 20, 35, 45, 40, 30, 60, 80, 70, 50]
  {
    assert PostOrder(ElevenTree.left) == [10, 25, 20, 35, 45, 40, 30];
  }

  /** Height 4 and 11 nodes; 40 is found and 99 is not. */
  lemma ElevenCounts()
    ensures TreeModel.Height(ElevenTree) == 4 && Count(ElevenTree) == 11
    ensures Search(ElevenTree, 40) && !Search(ElevenTree, 99)
  {
  }

  /** The levels of the eleven-value tree, top to bottom. */
  lemma ElevenLevels()
    ensures LevelOrder(ElevenTree) == [[50], [30, 70], [20, 40, 60, 80], [10, 25, 35, 45]]
  {
    ElevenCounts();
    ElevenDepths();
    LevelOrderUnique(ElevenTree, [[50], [30, 70], [20, 40, 60, 80], [10, 25, 35, 45]]);
  }

  lemma ElevenDepths()
    ensures AtDepth(ElevenTree, 0) == [50] && AtDepth(ElevenTree, 1) == [30, 70]
    ensures AtDepth(ElevenTree, 2) == [20, 40, 60, 80] && AtDepth(ElevenTree, 3) == [10, 25, 35, 45]
  {
  }

  /** The left subtree once 30 is removed: its successor 35 has taken its place. */
  const ThirtyRemoved: Tree :=
    Node(Node(Node(Leaf, 10, Leaf), 20, Node(Leaf, 25, Leaf)), 35, Node(Leaf, 40, Node(Leaf, 45, Leaf)))

  /** Removing 30, which has two children, moves its in-order successor 35 up. */
  lemma RemoveThirty()
    ensures ElevenTree.left.left.Node? && ElevenTree.left.right.Node?
    ensures Remove(ElevenTree, 30) == Node(ThirtyRemoved, 50, ElevenTree.right)
  {
    assert MinNode(ElevenTree.left.right).value == 35;
    assert Remove(ElevenTree.left.right, 35) == Node(Leaf, 40, Node(Leaf, 45, Leaf));
  }

  /** Removing 30 leaves the other ten values in order. */
  lemma ElevenRemoveThirty()
    ensures InOrder(Remove(ElevenTree, 30)) == [10, 20, 25, 35, 40, 45, 50, 60, 70, 80]
  {
    RemoveThirty();
    assert InOrder(ThirtyRemoved) == [10, 20, 25, 35, 40, 45];
  }

  /** Removing 30 and then 80 (a leaf) leaves 9 nodes. */
  lemma ElevenRemoveEighty()
    ensures InOrder(Remove(Remove(ElevenTree, 30), 80)) == [10, 20, 25, 35, 40, 45, 50, 60, 70]
    ensures Count(Remove(Remove(ElevenTree, 30), 80)) == 9
  {
    RemoveThirty();
    var a, b := ThirtyRemoved, Node(Node(Leaf, 60, Leaf), 70, Leaf);
    assert Remove(Node(a, 50, ElevenTree.right), 80) == Node(a, 50, b);
    assert InOrder(a) == [10, 20, 25, 35, 40, 45];
    assert Count(a) == 6;
  }

  /**
   * The Java demo removes 30, then 20 and then 10.  The node holding 20 has
   * two children when it is removed; 8 nodes remain.
   */
  lemma JavaDemo()
    ensures var a := Remove(ElevenTree, 30);
      a.left.left == Node(Leaf1(10), 20, Leaf1(25)) &&
      InOrder(Remove(Remove(a, 20), 10)) == [25, 35, 40, 45, 50, 60, 70, 80] &&
      Count(Remove(Remove(a, 20), 10)) == 8
  {
    RemoveThirty();
    JavaRemoveTwenty();
    JavaRemoveTen();
    var c := Node(Leaf1(25), 35, Node(Leaf, 40, Leaf1(45)));
    assert InOrder(Node(c, 50, ElevenTree.right)) == [25, 35, 40, 45, 50, 60, 70, 80];
    assert Count(Node(c, 50, ElevenTree.right)) == 8;
  }

  /** 20 has two children; its successor 25 takes its place. */
  lemma JavaRemoveTwenty()
    ensures Remove(Node(ThirtyRemoved, 50, ElevenTree.right), 20)
      == Node(Node(Node(Leaf1(10), 25, Leaf), 35, Node(Leaf, 40, Leaf1(45))), 50, ElevenTree.right)
  {
    assert Remove(Node(Leaf1(10), 20, Leaf1(25)), 20) == Node(Leaf1(10), 25, Leaf);
  }

  /** 10 is then a leaf. */
  lemma JavaRemoveTen()
    ensures Remove(Node(Node(Node(Leaf1(10), 25, Leaf), 35, Node(Leaf, 40, Leaf1(45))), 50, ElevenTree.right), 10)
      == Node(Node(Leaf1(25), 35, Node(Leaf, 40, Leaf1(45))), 50, ElevenTree.right)
  {
    assert Remove(Node(Leaf1(10), 25, Leaf), 10) == Leaf1(25);
  }

  /**
   * The C demo removes 30, then 10 and then 70.  The node holding 70 has two
   * children when it is removed; 8 nodes remain.
   */
  lemma CDemo()
    ensures var b := Remove(Remove(ElevenTree, 30), 10);
      b.right == Node(Leaf1(60), 70, Leaf1(80)) &&
      InOrder(Remove(b, 70)) == [20, 25, 35, 40, 45, 50, 60, 80] &&
      Count(Remove(b, 70)) == 8
  {
    RemoveThirty();
    CRemoveTen();
    CRemoveSeventy();
    var b := Node(Node(Leaf, 20, Leaf1(25)), 35, Node(Leaf, 40, Leaf1(45)));
    var c := Node(Leaf1(60), 80, Leaf);
    assert InOrder(Node(b, 50, c)) == [20, 25, 35, 40, 45, 50, 60, 80];
    assert Count(Node(b, 50, c)) == 8;
  }

  /** 10 is a leaf under 20. */
  lemma CRemoveTen()
    ensures Remove(Node(ThirtyRemoved, 50, ElevenTree.right), 10)
      == Node(Node(Node(Leaf, 20, Leaf1(25)), 35, Node(Leaf, 40, Leaf1(45))), 50, ElevenTree.right)
  {
    assert Remove(Node(Leaf1(10), 20, Leaf1(25)), 10) == Node(Leaf, 20, Leaf1(25));
  }

  /** 70 has two children; its successor 80 takes its place. */
  lemma CRemoveSeventy()
    ensures var b := Node(Node(Leaf, 20, Leaf1(25)), 35, Node(Leaf, 40, Leaf1(45)));
      Remove(Node(b, 50, ElevenTree.right), 70) == Node(b, 50, Node(Leaf1(60), 80, Leaf))
  {
  }
}

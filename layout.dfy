/**
 * The drawing layout of the two React visualisers.  A node at depth `d` laid
 * out over the horizontal interval [left, right] sits at the midpoint of the
 * interval and at height d*80+50; its left child is laid out over the left
 * half and its right child over the right half.  Entries are keyed by value
 * and written root first, then the left subtree, then the right subtree, so
 * a later write wins.  Coordinates are exact reals.
 */
module Layout {
  import opened TreeModel
  import opened Levels

  datatype Position = Position(x: real, y: real)

  /** Width of the drawing canvas, and the interval the whole tree is laid out over. */
  const CanvasWidth: real := 900.0

  /** Vertical coordinate of every node at depth `d`. */
  function RowY(d: int): real
  {
    (d * 80 + 50) as real
  }

  function Mid(left: real, right: real): real
  {
    (left + right) / 2.0
  }

  /**
   * The entries the layout writes for `t`, later writes overriding earlier
   * ones: the root's entry at the midpoint of [left, right] on row `depth`,
   * then the left subtree's over the left half and the right subtree's over
   * the right half, one row down.
   */
  function Positions(t: Tree, depth: nat, left: real, right: real): map<int, Position>
  {
    match t
    case Leaf => map[]
    case Node(l, v, r) =>
      map[v := Position(Mid(left, right), RowY(depth))]
        + Positions(l, depth + 1, left, Mid(left, right))
        + Positions(r, depth + 1, Mid(left, right), right)
  }

  /** The positions the canvas draws: depth 0 over [0, 900], one per stored value. */
  function CanvasLayout(t: Tree): (p: map<int, Position>)
    ensures p.Keys == Elements(t)
  {
    PositionsKeys(t, 0, 0.0, CanvasWidth);
    Positions(t, 0, 0.0, CanvasWidth)
  }

  /**
   * Height of the canvas: at least 420, and 80 per level plus a margin of 80,
   * so every row the tree occupies lies at least 80 above the bottom edge.
   */
  function CanvasHeight(t: Tree): (h: real)
    ensures 420.0 <= h
    ensures forall d: nat :: d < Height(t) ==> RowY(d) + 80.0 <= h
  {
    Max(420, Height(t) * 80 + 80) as real
  }

  /**
   * The layout writes into the caller's accumulator, which it also returns:
   * the root entry first, then the left subtree's, then the right subtree's.
   */
  method LayoutInto(t: Tree, depth: nat, left: real, right: real, acc: map<int, Position>)
    returns (out: map<int, Position>)
    ensures out == acc + Positions(t, depth, left, right)
  {
    out := acc;
    if t.Node? {
      var mid := (left + right) / 2.0;
      out := out[t.value := Position(mid, RowY(depth))];
      out := LayoutInto(t.left, depth + 1, left, mid, out);
      out := LayoutInto(t.right, depth + 1, mid, right, out);
      WriteThenSubtrees(acc, t, depth, left, right);
    }
  }

  /** Writing the root entry and then each subtree's entries into `acc` adds the subtree's layout to it. */
  lemma WriteThenSubtrees(acc: map<int, Position>, t: Tree, depth: nat, left: real, right: real)
    requires t.Node?
    ensures var mid := Mid(left, right);
      acc[t.value := Position(mid, RowY(depth))]
        + Positions(t.left, depth + 1, left, mid) + Positions(t.right, depth + 1, mid, right)
      == acc + Positions(t, depth, left, right)
  {
    var mid := Mid(left, right);
    var root := map[t.value := Position(mid, RowY(depth))];
    var pl, pr := Positions(t.left, depth + 1, left, mid), Positions(t.right, depth + 1, mid, right);
    assert acc[t.value := Position(mid, RowY(depth))] == acc + root;
    assert acc + root + pl + pr == acc + (root + pl + pr);
  }

  // ---------------------------------------------------------------------------
  // Properties of the layout

  /** There is exactly one entry per stored value. */
  lemma {:induction false} PositionsKeys(t: Tree, depth: nat, left: real, right: real)
    ensures Positions(t, depth, left, right).Keys == Elements(t)
  {
    match t
    case Leaf =>
    case Node(l, v, r) =>
      var mid := Mid(left, right);
      PositionsKeys(l, depth + 1, left, mid);
      PositionsKeys(r, depth + 1, mid, right);
  }

  /**
   * On a BST nothing is overwritten: the root sits at the midpoint of its
   * interval on row `depth`, and each value of the left (right) subtree keeps
   * the position the left (right) half of the interval gives it one row down.
   */
  lemma PositionsSplit(t: Tree, depth: nat, left: real, right: real)
    requires IsBST(t) && t.Node?
    ensures var p := Positions(t, depth, left, right);
      t.value in p && p[t.value] == Position(Mid(left, right), RowY(depth))
    ensures var p, pl := Positions(t, depth, left, right), Positions(t.left, depth + 1, left, Mid(left, right));
      forall k :: k in pl ==> k in p && p[k] == pl[k]
    ensures var p, pr := Positions(t, depth, left, right), Positions(t.right, depth + 1, Mid(left, right), right);
      forall k :: k in pr ==> k in p && p[k] == pr[k]
  {
    var mid := Mid(left, right);
    PositionsKeys(t.left, depth + 1, left, mid);
    PositionsKeys(t.right, depth + 1, mid, right);
    assert t.value !in Elements(t.left) && t.value !in Elements(t.right);
    assert forall k :: k in Elements(t.left) ==> k !in Elements(t.right);
  }

  /**
   * Every entry lies inside the interval (strictly inside when the interval
   * is not a point), and on a row between `depth` and the deepest level.
   */
  lemma {:induction false} PositionsBounds(t: Tree, depth: nat, left: real, right: real)
    requires left <= right
    ensures forall k :: k in Positions(t, depth, left, right) ==>
      left <= Positions(t, depth, left, right)[k].x <= right &&
      (left < right ==> left < Positions(t, depth, left, right)[k].x < right)
    ensures forall k :: k in Positions(t, depth, left, right) ==>
      RowY(depth) <= Positions(t, depth, left, right)[k].y <= RowY(depth + Height(t) - 1)
  {
    match t
    case Leaf =>
    case Node(l, v, r) =>
      var mid := Mid(left, right);
      var p, pl, pr := Positions(t, depth, left, right), Positions(l, depth + 1, left, mid), Positions(r, depth + 1, mid, right);
      PositionsBounds(l, depth + 1, left, mid);
      PositionsBounds(r, depth + 1, mid, right);
      forall k | k in p
        ensures left <= p[k].x <= right && (left < right ==> left < p[k].x < right)
        ensures RowY(depth) <= p[k].y <= RowY(depth + Height(t) - 1)
      {
        if k in pr {
          assert p[k] == pr[k];
        } else if k in pl {
          assert p[k] == pl[k];
        } else {
          assert p[k] == Position(mid, RowY(depth));
        }
      }
  }

  /**
   * On a BST node, the left subtree is drawn strictly left of the node's
   * midpoint and the right subtree strictly right of it.
   */
  lemma PositionsSides(t: Tree, depth: nat, left: real, right: real)
    requires IsBST(t) && t.Node? && left < right
    ensures var p := Positions(t, depth, left, right);
      forall a :: a in Elements(t.left) ==> a in p && p[a].x < Mid(left, right)
    ensures var p := Positions(t, depth, left, right);
      forall b :: b in Elements(t.right) ==> b in p && Mid(left, right) < p[b].x
  {
    var mid := Mid(left, right);
    PositionsSplit(t, depth, left, right);
    PositionsKeys(t.left, depth + 1, left, mid);
    PositionsKeys(t.right, depth + 1, mid, right);
    PositionsBounds(t.left, depth + 1, left, mid);
    PositionsBounds(t.right, depth + 1, mid, right);
  }

  /**
   * On a BST, horizontal order follows value order: a smaller value is drawn
   * strictly further left, so x increases along the in-order sequence.
   */
  lemma {:induction false} PositionsOrdered(t: Tree, depth: nat, left: real, right: real)
    requires IsBST(t) && left < right
    ensures forall a, b :: a in Elements(t) && b in Elements(t) && a < b ==>
      a in Positions(t, depth, left, right) && b in Positions(t, depth, left, right) &&
      Positions(t, depth, left, right)[a].x < Positions(t, depth, left, right)[b].x
  {
    match t
    case Leaf =>
    case Node(l, v, r) =>
      var mid := Mid(left, right);
      var p := Positions(t, depth, left, right);
      forall a, b | a in Elements(t) && b in Elements(t) && a < b
        ensures a in p && b in p && p[a].x < p[b].x
      {
        PositionsSides(t, depth, left, right);
        PositionsSplit(t, depth, left, right);
        if a in Elements(l) && b in Elements(l) {
          PositionsOrdered(l, depth + 1, left, mid);
          PositionsKeys(l, depth + 1, left, mid);
        } else if a in Elements(r) && b in Elements(r) {
          PositionsOrdered(r, depth + 1, mid, right);
          PositionsKeys(r, depth + 1, mid, right);
        }
      }
  }

  /** The first in-order value is drawn leftmost: in-order x coordinates strictly increase. */
  lemma InOrderLeftToRight(t: Tree, depth: nat, left: real, right: real)
    requires IsBST(t) && left < right
    ensures forall i, j :: 0 <= i < j < |InOrder(t)| ==>
      InOrder(t)[i] in Positions(t, depth, left, right) && InOrder(t)[j] in Positions(t, depth, left, right) &&
      Positions(t, depth, left, right)[InOrder(t)[i]].x < Positions(t, depth, left, right)[InOrder(t)[j]].x
  {
    var s, p := InOrder(t), Positions(t, depth, left, right);
    BstIffAscending(t);
    InOrderElements(t);
    PositionsOrdered(t, depth, left, right);
    forall i, j | 0 <= i < j < |s| ensures s[i] in p && s[j] in p && p[s[i]].x < p[s[j]].x {
      assert s[i] in s && s[j] in s;
    }
  }

  /** On a BST, a value at depth j of the tree is drawn on row depth+j. */
  lemma {:induction false} PositionsRow(t: Tree, depth: nat, left: real, right: real, j: nat, k: int)
    requires IsBST(t) && k in AtDepth(t, j)
    ensures k in Positions(t, depth, left, right) && Positions(t, depth, left, right)[k].y == RowY(depth + j)
  {
    match t
    case Node(l, v, r) =>
      var mid := Mid(left, right);
      PositionsSplit(t, depth, left, right);
      if j > 0 {
        if k in AtDepth(l, j - 1) {
          PositionsRow(l, depth + 1, left, mid, j - 1, k);
        } else {
          PositionsRow(r, depth + 1, mid, right, j - 1, k);
        }
      }
  }

  /**
   * The whole tree fits the canvas: one entry per value, every x within
   * [0, 900], the root at the centre of the top row, and every row above
   * the canvas's bottom edge.
   */
  lemma CanvasFits(t: Tree)
    ensures CanvasLayout(t).Keys == Elements(t)
    ensures forall k :: k in CanvasLayout(t) ==>
      0.0 < CanvasLayout(t)[k].x < CanvasWidth && 50.0 <= CanvasLayout(t)[k].y < CanvasHeight(t)
    ensures IsBST(t) && t.Node? ==> CanvasLayout(t)[t.value] == Position(450.0, 50.0)
  {
    PositionsBounds(t, 0, 0.0, CanvasWidth);
    if IsBST(t) && t.Node? {
      PositionsSplit(t, 0, 0.0, CanvasWidth);
    }
  }
}

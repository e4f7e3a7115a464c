/**
 * The packing tree as the program holds it: a graph of mutable nodes. Each
 * node carries a ghost `Model`, the value it stands for, and a ghost `Repr`,
 * the nodes of its subtree; `Insert` is proved to do to the nodes exactly
 * what `TreeModel.Place` does to the value.
 */
module BitmapTrees {
  import opened Wrappers
  import opened Rectangles
  import opened TreeModel
  import opened Bitmaps

  class BitmapNode {
    var left: BitmapNode?
    var right: BitmapNode?
    const rect: Rect
    var hasBitmap: bool
    ghost var Model: Tree
    ghost var Repr: set<BitmapNode>

    /**
     * Both children are present or neither is; a node with children holds no
     * bitmap itself; the subtrees are separate; the model follows the nodes.
     */
    ghost predicate Valid()
      reads this, Repr
      decreases Repr
    {
      && this in Repr
      && (left == null <==> right == null)
      && Model.rect == rect
      && (left == null ==> Model == Leaf(rect, hasBitmap))
      && (left != null ==>
          && right != null
          && left in Repr && right in Repr
          && left.Repr <= Repr && right.Repr <= Repr
          && this !in left.Repr && this !in right.Repr
          && left.Repr !! right.Repr
          && left.Valid() && right.Valid()
          && !hasBitmap
          && Model == Internal(rect, left.Model, right.Model))
    }

    /** A new node is an empty leaf. */
    constructor (rect: Rect)
      ensures Valid() && Repr == {this}
      ensures Model == Leaf(rect, false)
    {
      this.rect := rect;
      left := null;
      right := null;
      hasBitmap := false;
      Model := Leaf(rect, false);
      Repr := {this};
    }

    /**
     * Finds room for the bitmap in this subtree: the left subtree first, then
     * the right; at a leaf, reject it when occupied or too small, claim it on
     * an exact fit, otherwise split it and go into the new left child.
     */
    method Insert(bitmap: Bitmap) returns (fitted: bool)
      requires Valid()
      modifies Repr, bitmap`positionRect
      ensures Valid() && fresh(Repr - old(Repr))
      ensures var o := Place(old(Model), bitmap.width, bitmap.height);
        && Model == o.tree
        && fitted == o.placed.Some?
        && bitmap.positionRect == (if fitted then o.placed else old(bitmap.positionRect))
      decreases Depth(Model), rect.Width() + rect.Height(), 1
    {
      if left != null && right != null {
        fitted := InsertBelow(bitmap);
      } else {
        fitted := InsertAtLeaf(bitmap);
      }
    }

    /** An internal node: the left child first, the right child only when the left has no room. */
    method InsertBelow(bitmap: Bitmap) returns (fitted: bool)
      requires Valid() && left != null
      modifies Repr, bitmap`positionRect
      ensures Valid() && fresh(Repr - old(Repr))
      ensures var o := Place(old(Model), bitmap.width, bitmap.height);
        && Model == o.tree
        && fitted == o.placed.Some?
        && bitmap.positionRect == (if fitted then o.placed else old(bitmap.positionRect))
      decreases Depth(Model), rect.Width() + rect.Height(), 0
    {
      ghost var l, r := left.Model, right.Model;
      fitted := left.Insert(bitmap);
      if fitted {
        assert right.Valid() && right.Model == r;
        Model := Internal(rect, left.Model, r);
        Repr := Repr + left.Repr;
      } else {
        FailureChangesNothing(l, bitmap.width, bitmap.height);
        assert left.Model == l;
        fitted := right.Insert(bitmap);
        assert left.Valid();
        Model := Internal(rect, l, right.Model);
        Repr := Repr + left.Repr + right.Repr;
      }
    }

    /** A leaf: reject, claim, or split and go into the new left child. */
    method InsertAtLeaf(bitmap: Bitmap) returns (fitted: bool)
      requires Valid() && left == null
      modifies Repr, bitmap`positionRect
      ensures Valid() && fresh(Repr - old(Repr))
      ensures var o := Place(old(Model), bitmap.width, bitmap.height);
        && Model == o.tree
        && fitted == o.placed.Some?
        && bitmap.positionRect == (if fitted then o.placed else old(bitmap.positionRect))
      decreases Depth(Model), rect.Width() + rect.Height(), 0
    {
      if hasBitmap {
        return false;
      }
      if !Fits(rect, bitmap.width, bitmap.height) {
        return false;
      }
      if FitsExact(rect, bitmap.width, bitmap.height) {
        hasBitmap := true;
        Model := Leaf(rect, true);
        bitmap.SetPositionRect(rect);
        return true;
      }
      var (lr, rr) := SplitRects(rect, bitmap.width, bitmap.height);
      var l := new BitmapNode(lr);
      var r := new BitmapNode(rr);
      left, right := l, r;
      fitted := l.Insert(bitmap);
      Model := Internal(rect, l.Model, r.Model);
      Repr := Repr + l.Repr + {r};
    }
  }

  /** The packing tree of one attempt, over a fixed width and height. */
  class BitmapTree {
    const root: BitmapNode

    ghost predicate Valid()
      reads this, root, root.Repr
    {
      root.Valid()
    }

    ghost function Model(): Tree
      reads this, root
    {
      root.Model
    }

    /** A fresh tree is one empty leaf over [0, dimensions[0]] × [0, dimensions[1]]. */
    constructor (dimensions: array<int>)
      requires dimensions.Length >= 2
      ensures Valid() && fresh(root.Repr)
      ensures Model() == Leaf(Rect(0, dimensions[0], 0, dimensions[1]), false)
    {
      root := new BitmapNode(Rect(0, dimensions[0], 0, dimensions[1]));
    }

    method Insert(bitmap: Bitmap) returns (fitted: bool)
      requires Valid()
      modifies root.Repr, bitmap`positionRect
      ensures Valid() && fresh(root.Repr - old(root.Repr))
      ensures var o := Place(old(Model()), bitmap.width, bitmap.height);
        && Model() == o.tree
        && fitted == o.placed.Some?
        && bitmap.positionRect == (if fitted then o.placed else old(bitmap.positionRect))
    {
      fitted := root.Insert(bitmap);
    }
  }
}

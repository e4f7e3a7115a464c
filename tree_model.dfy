/**
 * The value-level model of the binary-space-partition packing tree (the
 * "lightmap" packer). A node is a leaf, empty or holding one bitmap, or an
 * internal node with two children. `Place` is what one insert does to a tree;
 * the classes in BitmapTrees are proved to follow it step for step.
 */
module TreeModel {
  import opened Wrappers
  import opened Rectangles

  datatype Tree = Leaf(rect: Rect, occupied: bool) | Internal(rect: Rect, left: Tree, right: Tree)

  /** What one insert yields: the new tree and, on success, the rectangle assigned. */
  datatype Outcome = Outcome(tree: Tree, placed: Option<Rect>)

  function Depth(t: Tree): nat {
    match t
    case Leaf(_, _) => 0
    case Internal(_, l, r) => 1 + (if Depth(l) < Depth(r) then Depth(r) else Depth(l))
  }

  /**
   * The bitmap is no wider and no taller than the rectangle: a w×h
   * rectangle anchored at its top-left corner lies within it.
   */
  predicate Fits(r: Rect, w: int, h: int): (b: bool)
    ensures w >= 0 && h >= 0 ==> (b <==> Inside(Rect(r.left, r.left + w, r.top - h, r.top), r))
  {
    w <= r.Width() && h <= r.Height()
  }

  /**
   * The bitmap has exactly the rectangle's width and height: the w×h
   * rectangle anchored at its top-left corner is the rectangle itself.
   */
  predicate FitsExact(r: Rect, w: int, h: int): (b: bool)
    ensures b <==> Rect(r.left, r.left + w, r.top - h, r.top) == r
    ensures b ==> Fits(r, w, h)
  {
    w == r.Width() && h == r.Height()
  }

  /**
   * The two children of a leaf split for a w×h bitmap. The cut runs along the
   * axis with the larger leftover: a column of the bitmap's width when the
   * leftover width is strictly larger, otherwise a top strip of its height.
   */
  function SplitRects(r: Rect, w: int, h: int): (p: (Rect, Rect))
    ensures p.0.left == r.left && p.0.top == r.top && p.1.right == r.right && p.1.bottom == r.bottom
    ensures r.Width() - w > r.Height() - h ==>
      && p.0.Width() == w && p.0.right == p.1.left && p.0.Width() + p.1.Width() == r.Width()
      && p.0.Height() == p.1.Height() == r.Height()
    ensures r.Width() - w <= r.Height() - h ==>
      && p.0.Height() == h && p.0.bottom == p.1.top && p.0.Height() + p.1.Height() == r.Height()
      && p.0.Width() == p.1.Width() == r.Width()
  {
    if r.Width() - w > r.Height() - h then
      (Rect(r.left, r.left + w, r.bottom, r.top), Rect(r.left + w, r.right, r.bottom, r.top))
    else
      (Rect(r.left, r.right, r.top - h, r.top), Rect(r.left, r.right, r.bottom, r.top - h))
  }

  /** One insert of a w×h bitmap. */
  function Place(t: Tree, w: nat, h: nat): (o: Outcome)
    ensures o.tree.rect == t.rect
    ensures o.placed.Some? ==> o.placed.value.Width() == w && o.placed.value.Height() == h
    decreases Depth(t), t.rect.Width() + t.rect.Height()
  {
    match t
    case Internal(r, l, rt) =>
      var a := Place(l, w, h);
      if a.placed.Some? then Outcome(Internal(r, a.tree, rt), a.placed)
      else
        var b := Place(rt, w, h);
        Outcome(Internal(r, a.tree, b.tree), b.placed)
    case Leaf(r, occupied) =>
      if occupied then Outcome(t, None)
      else if !Fits(r, w, h) then Outcome(t, None)
      else if FitsExact(r, w, h) then Outcome(Leaf(r, true), Some(r))
      else
        var (lr, rr) := SplitRects(r, w, h);
        var a := Place(Leaf(lr, false), w, h);
        Outcome(Internal(r, a.tree, Leaf(rr, false)), a.placed)
  }

  /** Every internal node's children lie inside it and do not overlap each other. */
  predicate WellFormed(t: Tree) {
    Proper(t.rect) &&
    match t
    case Leaf(_, _) => true
    case Internal(r, l, rt) =>
      && Inside(l.rect, r) && Inside(rt.rect, r) && !Overlap(l.rect, rt.rect)
      && WellFormed(l) && WellFormed(rt)
  }

  /** The rectangles of the occupied leaves, left to right. */
  function Occupied(t: Tree): seq<Rect> {
    match t
    case Leaf(r, occupied) => if occupied then [r] else []
    case Internal(_, l, rt) => Occupied(l) + Occupied(rt)
  }

  /** A fresh tree: one empty leaf over [0, width] × [0, height]. */
  function NewTree(width: nat, height: nat): (t: Tree)
    ensures t.Leaf? && !t.occupied && WellFormed(t) && Occupied(t) == []
    ensures t.rect.left == 0 && t.rect.bottom == 0 && t.rect.Width() == width && t.rect.Height() == height
  {
    Leaf(Rect(0, width, 0, height), false)
  }

  /**
   * A split for a bitmap that fits partitions the leaf: both children lie
   * inside it, they share no cell, and every cell of the leaf lies in one of them.
   */
  lemma SplitPartitions(r: Rect, w: nat, h: nat)
    requires Fits(r, w, h)
    ensures var (a, b) := SplitRects(r, w, h);
      && Inside(a, r) && Inside(b, r) && !Overlap(a, b)
      && (forall x, y :: HasCell(r, x, y) <==> HasCell(a, x, y) || HasCell(b, x, y))
      && (r.Width() - w > r.Height() - h ==> a.Width() == w && a.Height() == r.Height() && a.left == r.left)
      && (r.Width() - w <= r.Height() - h ==> a.Height() == h && a.Width() == r.Width() && a.top == r.top)
  {
  }

  /**
   * A leaf accepts a bitmap exactly when it is empty and the bitmap fits it.
   * A rejecting leaf is left as it was; an exact fit is claimed whole; any
   * other fit reaches an exact fit within two splits.
   */
  lemma {:induction false} LeafAccepts(r: Rect, occupied: bool, w: nat, h: nat)
    ensures Place(Leaf(r, occupied), w, h).placed.Some? <==> !occupied && Fits(r, w, h)
    ensures occupied || !Fits(r, w, h) ==> Place(Leaf(r, occupied), w, h).tree == Leaf(r, occupied)
    ensures !occupied && FitsExact(r, w, h) ==> Place(Leaf(r, occupied), w, h) == Outcome(Leaf(r, true), Some(r))
    ensures !occupied && Fits(r, w, h) ==> Depth(Place(Leaf(r, occupied), w, h).tree) <= 2
  {
    if !occupied && Fits(r, w, h) && !FitsExact(r, w, h) {
      var (lr, rr) := SplitRects(r, w, h);
      var o := Place(Leaf(lr, false), w, h);
      assert Place(Leaf(r, false), w, h) == Outcome(Internal(r, o.tree, Leaf(rr, false)), o.placed);
      if FitsExact(lr, w, h) {
        assert o == Outcome(Leaf(lr, true), Some(lr));
      } else {
        var (lr2, rr2) := SplitRects(lr, w, h);
        assert FitsExact(lr2, w, h);
        assert Place(Leaf(lr2, false), w, h) == Outcome(Leaf(lr2, true), Some(lr2));
        assert o == Outcome(Internal(lr, Leaf(lr2, true), Leaf(rr2, false)), Some(lr2));
        assert Depth(o.tree) == 1;
      }
    }
  }

  /** A failed insert leaves the tree exactly as it was: no half-built children. */
  lemma {:induction false} FailureChangesNothing(t: Tree, w: nat, h: nat)
    requires Place(t, w, h).placed.None?
    ensures Place(t, w, h).tree == t
    decreases t
  {
    match t
    case Internal(r, l, rt) =>
      FailureChangesNothing(l, w, h);
      FailureChangesNothing(rt, w, h);
    case Leaf(r, occupied) =>
      LeafAccepts(r, false, w, h);
  }

  /**
   * An internal node stays internal, and an insert changes at most one of its
   * subtrees: the left one when the left accepts, otherwise only the right.
   */
  lemma ChangesOneSide(r: Rect, l: Tree, rt: Tree, w: nat, h: nat)
    ensures var o := Place(Internal(r, l, rt), w, h);
      && o.tree.Internal?
      && (Place(l, w, h).placed.Some? ==> o.tree.right == rt && o.placed == Place(l, w, h).placed)
      && (Place(l, w, h).placed.None? ==> o.tree.left == l && o.placed == Place(rt, w, h).placed)
  {
    if Place(l, w, h).placed.None? {
      FailureChangesNothing(l, w, h);
    }
  }

  /** Every placed rectangle lies inside the rectangle of the tree it was placed in. */
  lemma {:induction false} PlacedInside(t: Tree, w: nat, h: nat)
    requires WellFormed(t) && Place(t, w, h).placed.Some?
    ensures Inside(Place(t, w, h).placed.value, t.rect)
    decreases Depth(t), t.rect.Width() + t.rect.Height()
  {
    match t
    case Internal(r, l, rt) =>
      if Place(l, w, h).placed.Some? {
        PlacedInside(l, w, h);
      } else {
        PlacedInside(rt, w, h);
      }
    case Leaf(r, occupied) =>
      if !FitsExact(r, w, h) {
        var (lr, rr) := SplitRects(r, w, h);
        SplitPartitions(r, w, h);
        PlacedInside(Leaf(lr, false), w, h);
      }
  }

  /** Inserting keeps every internal node's children inside it and apart. */
  lemma {:induction false} PlaceKeepsWellFormed(t: Tree, w: nat, h: nat)
    requires WellFormed(t)
    ensures WellFormed(Place(t, w, h).tree)
    decreases Depth(t), t.rect.Width() + t.rect.Height()
  {
    match t
    case Internal(r, l, rt) =>
      PlaceKeepsWellFormed(l, w, h);
      if Place(l, w, h).placed.None? {
        PlaceKeepsWellFormed(rt, w, h);
      }
    case Leaf(r, occupied) =>
      if !occupied && Fits(r, w, h) && !FitsExact(r, w, h) {
        var (lr, rr) := SplitRects(r, w, h);
        SplitPartitions(r, w, h);
        PlaceKeepsWellFormed(Leaf(lr, false), w, h);
      }
  }

  /** A successful insert claims exactly one new leaf, with the placed rectangle; a failed one claims none. */
  lemma {:induction false} ClaimsOneLeaf(t: Tree, w: nat, h: nat)
    ensures var o := Place(t, w, h);
      multiset(Occupied(o.tree)) ==
        multiset(Occupied(t)) + (if o.placed.Some? then multiset{o.placed.value} else multiset{})
    decreases Depth(t), t.rect.Width() + t.rect.Height()
  {
    match t
    case Internal(r, l, rt) =>
      ClaimsOneLeaf(l, w, h);
      if Place(l, w, h).placed.None? {
        ClaimsOneLeaf(rt, w, h);
      }
    case Leaf(r, occupied) =>
      if !occupied && Fits(r, w, h) && !FitsExact(r, w, h) {
        var (lr, rr) := SplitRects(r, w, h);
        ClaimsOneLeaf(Leaf(lr, false), w, h);
      }
  }

  /** The occupied leaves of a well-formed tree lie inside its rectangle. */
  lemma {:induction false} OccupiedInside(t: Tree)
    requires WellFormed(t)
    ensures forall q :: q in Occupied(t) ==> Inside(q, t.rect)
  {
    match t
    case Leaf(r, occupied) =>
    case Internal(r, l, rt) =>
      OccupiedInside(l);
      OccupiedInside(rt);
  }

  /** No two entries at different positions share a cell. */
  predicate PairwiseDisjoint(s: seq<Rect>) {
    forall i, j :: 0 <= i < |s| && 0 <= j < |s| && i != j ==> !Overlap(s[i], s[j])
  }

  /** No two distinct occupied leaves of a well-formed tree share a cell. */
  lemma {:induction false} OccupiedDisjoint(t: Tree)
    requires WellFormed(t)
    ensures PairwiseDisjoint(Occupied(t))
  {
    match t
    case Leaf(r, occupied) =>
    case Internal(r, l, rt) =>
      OccupiedDisjoint(l);
      OccupiedDisjoint(rt);
      OccupiedInside(l);
      OccupiedInside(rt);
      var s, sl, sr := Occupied(t), Occupied(l), Occupied(rt);
      forall i, j | 0 <= i < |s| && 0 <= j < |s| && i != j
        ensures !Overlap(s[i], s[j])
      {
        if i < |sl| && |sl| <= j {
          assert s[i] == sl[i] && s[j] == sr[j - |sl|];
          assert sl[i] in sl && sr[j - |sl|] in sr;
          InsideDisjoint(s[i], s[j], l.rect, rt.rect);
        } else if j < |sl| && |sl| <= i {
          assert s[j] == sl[j] && s[i] == sr[i - |sl|];
          assert sl[j] in sl && sr[i - |sl|] in sr;
          InsideDisjoint(s[j], s[i], l.rect, rt.rect);
          OverlapSymmetric(s[j], s[i]);
        } else if i < |sl| {
          assert s[i] == sl[i] && s[j] == sl[j];
          assert !Overlap(sl[i], sl[j]);
        } else {
          assert s[i] == sr[i - |sl|] && s[j] == sr[j - |sl|];
          assert !Overlap(sr[i - |sl|], sr[j - |sl|]);
        }
      }
  }

  /** A newly placed rectangle shares no cell with any leaf that was already occupied. */
  lemma {:induction false} PlacedAvoidsOccupied(t: Tree, w: nat, h: nat)
    requires WellFormed(t) && Place(t, w, h).placed.Some?
    ensures forall q :: q in Occupied(t) ==> !Overlap(Place(t, w, h).placed.value, q)
    decreases Depth(t), t.rect.Width() + t.rect.Height()
  {
    match t
    case Leaf(r, occupied) =>
    case Internal(r, l, rt) =>
      var p := Place(t, w, h).placed.value;
      OccupiedInside(l);
      OccupiedInside(rt);
      if Place(l, w, h).placed.Some? {
        PlacedAvoidsOccupied(l, w, h);
        PlacedInside(l, w, h);
        forall q | q in Occupied(rt) ensures !Overlap(p, q) {
          InsideDisjoint(p, q, l.rect, rt.rect);
        }
      } else {
        PlacedAvoidsOccupied(rt, w, h);
        PlacedInside(rt, w, h);
        forall q | q in Occupied(l) ensures !Overlap(p, q) {
          InsideDisjoint(q, p, l.rect, rt.rect);
          OverlapSymmetric(q, p);
        }
      }
  }

  /** The state after inserting a list of bitmaps into one tree, stopping at the first that does not fit. */
  datatype Packing = Packing(tree: Tree, placed: seq<Rect>, allFit: bool)

  /**
   * Inserts the bitmaps of the given sizes in order and stops at the first
   * failure. Defined from the back so that it reads as the loop that runs it.
   */
  function Pack(t: Tree, sizes: seq<(nat, nat)>): (p: Packing)
    ensures p.tree.rect == t.rect && |p.placed| <= |sizes|
  {
    if |sizes| == 0 then Packing(t, [], true)
    else
      var prev := Pack(t, sizes[..|sizes| - 1]);
      if !prev.allFit then prev
      else
        var o := Place(prev.tree, sizes[|sizes| - 1].0, sizes[|sizes| - 1].1);
        if o.placed.Some? then Packing(o.tree, prev.placed + [o.placed.value], true)
        else Packing(o.tree, prev.placed, false)
  }

  /** The rectangle at each position has the size of the bitmap at the same position. */
  predicate SizesMatch(placed: seq<Rect>, sizes: seq<(nat, nat)>)
    requires |placed| <= |sizes|
  {
    forall i :: 0 <= i < |placed| ==> placed[i].Width() == sizes[i].0 && placed[i].Height() == sizes[i].1
  }

  /**
   * One packing attempt places a prefix of the bitmaps, each with its own
   * size, and reports success exactly when the prefix is all of them.
   */
  lemma {:induction false} PackPlacesPrefix(t: Tree, sizes: seq<(nat, nat)>)
    ensures var p := Pack(t, sizes);
      && |p.placed| <= |sizes| && (p.allFit <==> |p.placed| == |sizes|)
      && SizesMatch(p.placed, sizes)
  {
    if |sizes| > 0 {
      var init := sizes[..|sizes| - 1];
      PackPlacesPrefix(t, init);
      var prev := Pack(t, init);
      var p := Pack(t, sizes);
      if prev.allFit && p.allFit {
        forall i | 0 <= i < |p.placed|
          ensures p.placed[i].Width() == sizes[i].0 && p.placed[i].Height() == sizes[i].1
        {
          if i < |prev.placed| {
            assert p.placed[i] == prev.placed[i] && sizes[i] == init[i];
          }
        }
      }
    }
  }

  /**
   * After one packing attempt the tree is still well formed over the same
   * rectangle, and its occupied leaves are the ones it had plus the placed ones.
   */
  lemma {:induction false} PackClaimsPlaced(t: Tree, sizes: seq<(nat, nat)>)
    requires WellFormed(t)
    ensures var p := Pack(t, sizes);
      && WellFormed(p.tree) && p.tree.rect == t.rect
      && multiset(Occupied(p.tree)) == multiset(Occupied(t)) + multiset(p.placed)
  {
    if |sizes| > 0 {
      var init := sizes[..|sizes| - 1];
      PackClaimsPlaced(t, init);
      var prev := Pack(t, init);
      if prev.allFit {
        var (w, h) := sizes[|sizes| - 1];
        ClaimsOneLeaf(prev.tree, w, h);
        PlaceKeepsWellFormed(prev.tree, w, h);
      }
    }
  }

  /** Once a bitmap does not fit, the attempt stops: later bitmaps change nothing. */
  lemma {:induction false} PackStopsAtFailure(t: Tree, sizes: seq<(nat, nat)>, n: nat)
    requires n <= |sizes| && !Pack(t, sizes[..n]).allFit
    ensures Pack(t, sizes) == Pack(t, sizes[..n])
    decreases |sizes| - n
  {
    if n < |sizes| {
      var init := sizes[..|sizes| - 1];
      assert init[..n] == sizes[..n];
      PackStopsAtFailure(t, init, n);
    } else {
      assert sizes[..n] == sizes;
    }
  }

  /** Appending a rectangle that overlaps none of the others keeps a list pairwise disjoint. */
  lemma DisjointSnoc(s: seq<Rect>, p: Rect)
    requires PairwiseDisjoint(s)
    requires forall q :: q in s ==> !Overlap(p, q)
    ensures PairwiseDisjoint(s + [p])
  {
    var s' := s + [p];
    forall i, j | 0 <= i < |s'| && 0 <= j < |s'| && i != j
      ensures !Overlap(s'[i], s'[j])
    {
      if i == |s| {
        assert s[j] in s;
      } else if j == |s| {
        assert s[i] in s;
        OverlapSymmetric(p, s[i]);
      } else {
        assert s'[i] == s[i] && s'[j] == s[j];
      }
    }
  }

  /**
   * Packing into a fresh tree: the placed rectangles lie inside the root and
   * no two of them overlap.
   */
  lemma {:induction false} PackDisjointInside(width: nat, height: nat, sizes: seq<(nat, nat)>)
    ensures var p := Pack(NewTree(width, height), sizes);
      && PairwiseDisjoint(p.placed)
      && forall q :: q in p.placed ==> Inside(q, Rect(0, width, 0, height))
  {
    var t := NewTree(width, height);
    if |sizes| > 0 {
      var init := sizes[..|sizes| - 1];
      PackDisjointInside(width, height, init);
      PackClaimsPlaced(t, init);
      var prev := Pack(t, init);
      if prev.allFit {
        var (w, h) := sizes[|sizes| - 1];
        var o := Place(prev.tree, w, h);
        if o.placed.Some? {
          PlacedAvoidsOccupied(prev.tree, w, h);
          PlacedInside(prev.tree, w, h);
          forall q | q in prev.placed ensures !Overlap(o.placed.value, q) {
            assert q in multiset(Occupied(prev.tree));
          }
          DisjointSnoc(prev.placed, o.placed.value);
        }
      }
    }
  }

  /** One attempt of the sizing loop: a brand-new tree over the current dimensions. */
  function Attempt(sizes: seq<(nat, nat)>, width: nat, height: nat): (p: Packing)
    ensures p.allFit ==> |p.placed| == |sizes| && SizesMatch(p.placed, sizes)
    ensures p.allFit ==> PairwiseDisjoint(p.placed) && forall q :: q in p.placed ==> Inside(q, Rect(0, width, 0, height))
  {
    PackPlacesPrefix(NewTree(width, height), sizes);
    PackDisjointInside(width, height, sizes);
    Pack(NewTree(width, height), sizes)
  }

  /** A lone bitmap fits a fresh atlas exactly when it is no wider and no taller than the atlas. */
  lemma AttemptOne(width: nat, height: nat, w: nat, h: nat)
    ensures Attempt([(w, h)], width, height).allFit <==> w <= width && h <= height
  {
    var sizes: seq<(nat, nat)> := [(w, h)];
    var t := NewTree(width, height);
    assert sizes[..0] == [];
    LeafAccepts(t.rect, false, w, h);
    assert Pack(t, sizes).allFit == Place(t, w, h).placed.Some?;
  }
}

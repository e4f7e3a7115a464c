/**
 * The atlas-sizing loop: pack every bitmap into a brand-new tree over the
 * current dimensions, and after a failed attempt grow the atlas and try again.
 */
module Positioning {
  import opened Wrappers
  import opened Rectangles
  import opened TreeModel
  import opened Bitmaps
  import opened BitmapTrees
  import opened AtlasSizing

  /** The width and height of each bitmap, in list order. */
  function Sizes(bitmaps: seq<Bitmap>): (s: seq<(nat, nat)>)
    ensures |s| == |bitmaps|
    ensures forall i :: 0 <= i < |s| ==> s[i] == (bitmaps[i].width, bitmaps[i].height)
  {
    seq(|bitmaps|, i requires 0 <= i < |bitmaps| => (bitmaps[i].width, bitmaps[i].height))
  }

  /** No bitmap object appears twice in the list. */
  predicate Distinct(bitmaps: seq<Bitmap>) {
    forall i, j :: 0 <= i < j < |bitmaps| ==> bitmaps[i] != bitmaps[j]
  }

  lemma {:induction false} DistinctCount(s: seq<Bitmap>, x: Bitmap)
    requires Distinct(s)
    ensures multiset(s)[x] <= 1
  {
    if s != [] {
      var n := |s| - 1;
      assert s == s[..n] + [s[n]];
      DistinctCount(s[..n], x);
      if s[n] == x {
        assert x !in s[..n];
      }
    }
  }

  lemma RepeatCount(s: seq<Bitmap>, i: nat, j: nat)
    requires i < j < |s| && s[i] == s[j]
    ensures multiset(s)[s[i]] >= 2
  {
    assert s == s[..i] + [s[i]] + s[i + 1..j] + [s[j]] + s[j + 1..];
  }

  /** A reordering of a list without repeats has no repeats. */
  lemma DistinctPermutation(s: seq<Bitmap>, r: seq<Bitmap>)
    requires Distinct(s) && multiset(r) == multiset(s)
    ensures Distinct(r)
  {
    forall i, j | 0 <= i < j < |r| ensures r[i] != r[j] {
      if r[i] == r[j] {
        RepeatCount(r, i, j);
        DistinctCount(s, r[i]);
      }
    }
  }

  /** The first n bitmaps hold the first n placed rectangles. */
  ghost predicate PlacedAt(bitmaps: seq<Bitmap>, placed: seq<Rect>, n: nat)
    requires n <= |bitmaps| && n <= |placed|
    reads bitmaps
  {
    forall k :: 0 <= k < n ==> bitmaps[k].positionRect == Some(placed[k])
  }

  /**
   * One attempt: a brand-new tree over the current dimensions, the bitmaps
   * inserted in list order, stopping at the first that does not fit. It
   * succeeds exactly when `TreeModel.Attempt` does, and then every bitmap
   * holds the rectangle that attempt placed it at.
   */
  method PackAttempt(dimensions: array<int>, bitmaps: seq<Bitmap>) returns (allFit: bool)
    requires dimensions.Length == 2 && dimensions[0] >= 0 && dimensions[1] >= 0
    requires Distinct(bitmaps)
    modifies bitmaps
    ensures var p := Attempt(Sizes(bitmaps), dimensions[0], dimensions[1]);
      && allFit == p.allFit
      && (allFit ==> |p.placed| == |bitmaps| && PlacedAt(bitmaps, p.placed, |bitmaps|))
  {
    var sizes := Sizes(bitmaps);
    allFit := true;
    var tree := new BitmapTree(dimensions);
    ghost var root := NewTree(dimensions[0], dimensions[1]);
    var i := 0;
    while i < |bitmaps|
      invariant 0 <= i <= |bitmaps|
      invariant tree.Valid() && fresh(tree.root.Repr)
      invariant allFit
      invariant var p := Pack(root, sizes[..i]);
        && p.allFit && tree.Model() == p.tree && |p.placed| == i
        && PlacedAt(bitmaps, p.placed, i)
    {
      var fitted := tree.Insert(bitmaps[i]);
      assert sizes[..i + 1][..i] == sizes[..i];
      allFit := allFit && fitted;
      if !allFit {
        break;
      }
      i := i + 1;
    }
    if allFit {
      assert sizes[..i] == sizes;
    } else {
      PackStopsAtFailure(root, sizes, i + 1);
    }
  }

  /**
   * Runs attempts until all bitmaps fit, growing the atlas after each
   * failure. The loop in the program has no bound; here it also stops once
   * `fuel` attempts have run, and `allFit` says which way it ended. Every
   * failed attempt failed on the dimensions of its time; after a success the
   * bitmaps hold the rectangles of that attempt.
   */
  method PositionBitmaps(dimensions: array<int>, bitmaps: seq<Bitmap>, fuel: nat) returns (count: nat, allFit: bool)
    requires dimensions.Length == 2 && dimensions[0] >= 0 && dimensions[1] >= 0
    requires Distinct(bitmaps)
    modifies dimensions, bitmaps
    ensures count >= 1 && (allFit || count >= fuel)
    ensures var failures := if allFit then count - 1 else count;
      && dimensions[0] >= 0 && dimensions[1] >= 0
      && (dimensions[0], dimensions[1]) == GrowN(old(dimensions[0]), old(dimensions[1]), failures)
      && forall k :: 0 <= k < failures ==>
           var (w, h) := GrowN(old(dimensions[0]), old(dimensions[1]), k);
           !Attempt(Sizes(bitmaps), w, h).allFit
    ensures allFit ==>
      var p := Attempt(Sizes(bitmaps), dimensions[0], dimensions[1]);
      p.allFit && |p.placed| == |bitmaps| && PlacedAt(bitmaps, p.placed, |bitmaps|)
  {
    ghost var width0, height0 := dimensions[0], dimensions[1];
    ghost var failures: nat := 0;
    allFit := true;
    count := 0;
    while count == 0 || (!allFit && count < fuel)
      invariant dimensions[0] >= 0 && dimensions[1] >= 0
      invariant failures == if count == 0 || allFit then (if count == 0 then 0 else count - 1) else count
      invariant (dimensions[0], dimensions[1]) == GrowN(width0, height0, failures)
      invariant forall k :: 0 <= k < failures ==>
        var (w, h) := GrowN(width0, height0, k);
        !Attempt(Sizes(bitmaps), w, h).allFit
      invariant count > 0 && allFit ==>
        var p := Attempt(Sizes(bitmaps), dimensions[0], dimensions[1]);
        p.allFit && |p.placed| == |bitmaps| && PlacedAt(bitmaps, p.placed, |bitmaps|)
      decreases fuel + 1 - count
    {
      allFit := PackAttempt(dimensions, bitmaps);
      if !allFit {
        if dimensions[0] == dimensions[1] {
          dimensions[0] := dimensions[0] * 2;
        } else {
          dimensions[1] := dimensions[1] * 2;
        }
        failures := failures + 1;
      }
      count := count + 1;
    }
  }
}

/**
 * The immutable rectangle of the packer. Bounds are stored as given and the
 * width and height are derived from them; the y axis grows upward.
 */
module Rectangles {
  import opened Text

  /** Rectangle(left, right, bottom, top); no validation, so a width or height may be negative. */
  datatype Rect = Rect(left: int, right: int, bottom: int, top: int) {

    /** The horizontal extent: the right edge is the left edge moved by the width. */
    function Width(): (w: int)
      ensures left + w == right
      ensures w >= 0 <==> left <= right
    {
      right - left
    }

    /** The vertical extent: the top edge is the bottom edge moved by the height. */
    function Height(): (h: int)
      ensures bottom + h == top
      ensures h >= 0 <==> bottom <= top
    {
      top - bottom
    }

    /** The debug rendering: Left, Right, Bottom, Top, Width, Height, in that order. */
    function ToString(): (s: string)
      ensures Split(s, ' ') == DebugFields(this)
    {
      DebugStringFields(this);
      DebugString(this)
    }
  }

  /** One appended field of Rect.ToString: the label, ": ", the value and three spaces. */
  function Labelled(tag: string, v: int): string {
    tag + ": " + IntToString(v) + "   "
  }

  /** The space-separated runs of one field: label, value and the two empty runs of the padding. */
  function Runs(tag: string, v: int): seq<string> {
    [tag + ":", IntToString(v), "", ""]
  }

  /** The space-separated runs of Rect.ToString, field by field, ending in the empty run after the last space. */
  function DebugFields(r: Rect): seq<string> {
    Runs("Left", r.left) + (Runs("Right", r.right) + (Runs("Bottom", r.bottom)
      + (Runs("Top", r.top) + (Runs("Width", r.Width()) + (Runs("Height", r.Height()) + [""])))))
  }

  /** Two words followed by two empty runs, as a field without its final space reads. */
  lemma SplitTwoWordsTwoEmpty(a: string, n: string)
    requires ' ' !in a && ' ' !in n
    ensures Split(a + [' '] + n + [' ', ' '], ' ') == [a, n, "", ""]
  {
    var s1 := a + [' '] + n;
    var s2 := s1 + [' '] + "";
    SplitSingle(a, ' ');
    SplitAppend(a, ' ', n);
    SplitAppend(s1, ' ', "");
    SplitAppend(s2, ' ', "");
    assert s2 + [' '] + "" == a + [' '] + n + [' ', ' '];
  }

  /** A field without its final space splits into tag, value and two empty runs. */
  lemma LabelledSplit(tag: string, v: int)
    requires ' ' !in tag
    ensures var p := Labelled(tag, v);
      |p| > 0 && p[|p| - 1] == ' ' &&
      Split(p[..|p| - 1], ' ') == Runs(tag, v)
  {
    var p := Labelled(tag, v);
    var a := tag + ":";
    var n := IntToString(v);
    IntToStringHasNo(v, ' ');
    SplitTwoWordsTwoEmpty(a, n);
    assert p[..|p| - 1] == a + [' '] + n + [' ', ' '];
  }

  /** A field followed by more text splits into its four runs and then the runs of the rest. */
  lemma LabelledThen(tag: string, v: int, rest: string)
    requires ' ' !in tag
    ensures Split(Labelled(tag, v) + rest, ' ') == Runs(tag, v) + Split(rest, ' ')
  {
    var p := Labelled(tag, v);
    LabelledSplit(tag, v);
    SplitConcat(p[..|p| - 1], rest, ' ');
    assert p + rest == p[..|p| - 1] + [' '] + rest;
  }

  /** The six appended fields, in append order. */
  function DebugString(r: Rect): string {
    Labelled("Left", r.left) + (Labelled("Right", r.right) + (Labelled("Bottom", r.bottom)
      + (Labelled("Top", r.top) + (Labelled("Width", r.Width()) + Labelled("Height", r.Height())))))
  }

  lemma DebugStringFields(r: Rect)
    ensures Split(DebugString(r), ' ') == DebugFields(r)
  {
    var p5, p6 := Labelled("Width", r.Width()), Labelled("Height", r.Height());
    var r5 := p5 + p6;
    var r4 := Labelled("Top", r.top) + r5;
    var r3 := Labelled("Bottom", r.bottom) + r4;
    var r2 := Labelled("Right", r.right) + r3;
    LabelledThen("Height", r.Height(), []);
    assert p6 + [] == p6;
    LabelledThen("Width", r.Width(), p6);
    LabelledThen("Top", r.top, r5);
    LabelledThen("Bottom", r.bottom, r4);
    LabelledThen("Right", r.right, r3);
    LabelledThen("Left", r.left, r2);
  }

  lemma DebugStringDeterminesRect(a: Rect, b: Rect)
    requires a.ToString() == b.ToString()
    ensures a == b
  {
    var fa, fb := DebugFields(a), DebugFields(b);
    assert fa == fb;
    assert fa[1] == IntToString(a.left);
    assert fa[5] == IntToString(a.right);
    assert fa[9] == IntToString(a.bottom);
    assert fa[13] == IntToString(a.top);
    IntToStringInjective(a.left, b.left);
    IntToStringInjective(a.right, b.right);
    IntToStringInjective(a.bottom, b.bottom);
    IntToStringInjective(a.top, b.top);
  }

  /** The unit cell whose lower-left corner is (x, y) lies in r. */
  predicate HasCell(r: Rect, x: int, y: int) {
    r.left <= x < r.right && r.bottom <= y < r.top
  }

  /** The two rectangles share at least one cell. */
  predicate Overlap(a: Rect, b: Rect) {
    && a.left < a.right && a.bottom < a.top
    && b.left < b.right && b.bottom < b.top
    && a.left < b.right && b.left < a.right
    && a.bottom < b.top && b.bottom < a.top
  }

  /** The edges are in order: the width and the height are not negative. */
  predicate Proper(r: Rect) {
    r.left <= r.right && r.bottom <= r.top
  }

  /** `inner` lies within `outer` (for a rectangle of non-negative size). */
  predicate Inside(inner: Rect, outer: Rect) {
    && outer.left <= inner.left <= inner.right <= outer.right
    && outer.bottom <= inner.bottom <= inner.top <= outer.top
  }

  /** Overlap is exactly "some cell lies in both". */
  lemma OverlapIffSharedCell(a: Rect, b: Rect)
    ensures Overlap(a, b) <==> exists x, y :: HasCell(a, x, y) && HasCell(b, x, y)
  {
    if Overlap(a, b) {
      var x := if a.left < b.left then b.left else a.left;
      var y := if a.bottom < b.bottom then b.bottom else a.bottom;
      assert HasCell(a, x, y) && HasCell(b, x, y);
    }
  }

  /** Overlap does not depend on the order of its arguments. */
  lemma OverlapSymmetric(a: Rect, b: Rect)
    ensures Overlap(a, b) == Overlap(b, a)
  {
  }

  /** Rectangles inside two non-overlapping rectangles do not overlap either. */
  lemma InsideDisjoint(p: Rect, q: Rect, a: Rect, b: Rect)
    requires Inside(p, a) && Inside(q, b) && !Overlap(a, b)
    ensures !Overlap(p, q)
  {
  }
}

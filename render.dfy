/**
 * Compositing the atlas: each bitmap's pixels are copied as one block onto a
 * canvas whose rows run top-down, while the packing rectangles count y
 * bottom-up, so a block's top row lands at canvas row atlasHeight - top.
 */
module Render {
  import opened Rectangles
  import opened Bitmaps
  import opened TreeModel

  /** A block to copy: its top-left corner on the canvas and its pixels. */
  datatype Block = Block(x0: int, y0: int, image: Image)

  predicate InBlock(b: Block, x: int, y: int) {
    b.x0 <= x < b.x0 + b.image.width && b.y0 <= y < b.y0 + b.image.height
  }

  /** Where a placed rectangle's block starts: x at its left edge, y flipped into top-down rows. */
  function Origin(r: Rect, atlasHeight: int): (int, int) {
    (r.left, atlasHeight - r.top)
  }

  /** Canvas pixel (x, y) lies in the flipped block of rectangle r. */
  predicate Covers(r: Rect, atlasHeight: int, x: int, y: int) {
    r.left <= x < r.right && atlasHeight - r.top <= y < atlasHeight - r.bottom
  }

  /**
   * A rectangle inside [0, width] × [0, height] has its flipped block inside
   * the canvas, and canvas pixel (x, y) of the block is packing cell
   * (x, atlasHeight - 1 - y) of the rectangle.
   */
  lemma FlipInside(r: Rect, atlasWidth: int, atlasHeight: int)
    requires Inside(r, Rect(0, atlasWidth, 0, atlasHeight))
    ensures var (x0, y0) := Origin(r, atlasHeight);
      && 0 <= x0 && x0 + r.Width() <= atlasWidth
      && 0 <= y0 && y0 + r.Height() <= atlasHeight
      && forall x, y :: Covers(r, atlasHeight, x, y) <==> HasCell(r, x, atlasHeight - 1 - y)
  {
  }

  /** Flipped blocks of rectangles that do not overlap share no canvas pixel. */
  lemma FlipKeepsApart(a: Rect, b: Rect, atlasHeight: int, x: int, y: int)
    requires !Overlap(a, b) && Covers(a, atlasHeight, x, y)
    ensures !Covers(b, atlasHeight, x, y)
  {
  }

  /** The pixel at column x of row y of an image; 0 outside its grid. */
  function Pixel(image: Image, x: int, y: int): int {
    if 0 <= y < |image.pixels| && 0 <= x < |image.pixels[y]| then image.pixels[y][x] else 0
  }

  /** The canvas value at (x, y) after copying the blocks in order: the last block that covers it wins, else 0. */
  function Composite(blocks: seq<Block>, x: int, y: int): int {
    if blocks == [] then 0
    else
      var b := blocks[|blocks| - 1];
      if InBlock(b, x, y) then Pixel(b.image, x - b.x0, y - b.y0)
      else Composite(blocks[..|blocks| - 1], x, y)
  }

  /** When no two blocks share a pixel, each block shows through intact. */
  lemma {:induction false} CompositeShowsBlock(blocks: seq<Block>, k: nat, x: int, y: int)
    requires forall i, j, x', y' :: 0 <= i < j < |blocks| && InBlock(blocks[i], x', y') ==> !InBlock(blocks[j], x', y')
    requires k < |blocks| && InBlock(blocks[k], x, y)
    ensures Composite(blocks, x, y) == Pixel(blocks[k].image, x - blocks[k].x0, y - blocks[k].y0)
  {
    var n := |blocks| - 1;
    if k < n {
      assert !InBlock(blocks[n], x, y);
      CompositeShowsBlock(blocks[..n], k, x, y);
    }
  }

  /**
   * Copies an image onto the canvas with its top-left corner at (x0, y0).
   * The block must lie inside the canvas; the library call refuses it otherwise.
   */
  method SetRGB(canvas: array2<int>, x0: int, y0: int, image: Image)
    requires image.Valid()
    requires 0 <= x0 && x0 + image.width <= canvas.Length0
    requires 0 <= y0 && y0 + image.height <= canvas.Length1
    modifies canvas
    ensures forall x, y :: 0 <= x < canvas.Length0 && 0 <= y < canvas.Length1 ==>
      canvas[x, y] == if InBlock(Block(x0, y0, image), x, y) then Pixel(image, x - x0, y - y0) else old(canvas[x, y])
  {
    for j := 0 to image.height
      invariant forall x, y :: 0 <= x < canvas.Length0 && 0 <= y < canvas.Length1 ==>
        canvas[x, y] == if x0 <= x < x0 + image.width && y0 <= y < y0 + j then image.pixels[y - y0][x - x0] else old(canvas[x, y])
    {
      for i := 0 to image.width
        invariant forall x, y :: 0 <= x < canvas.Length0 && 0 <= y < canvas.Length1 ==>
          canvas[x, y] ==
            if (x0 <= x < x0 + image.width && y0 <= y < y0 + j) || (x0 <= x < x0 + i && y == y0 + j) then image.pixels[y - y0][x - x0]
            else old(canvas[x, y])
      {
        canvas[x0 + i, y0 + j] := image.pixels[j][i];
      }
    }
  }

  /** A bitmap that can be drawn: decoded consistently, and placed at its own size inside the atlas. */
  predicate Placeable(b: Bitmap, atlasWidth: int, atlasHeight: int)
    reads b
  {
    && b.Wf() && b.image.Valid() && b.positionRect.Some?
    && b.positionRect.value.Width() == b.width && b.positionRect.value.Height() == b.height
    && Inside(b.positionRect.value, Rect(0, atlasWidth, 0, atlasHeight))
  }

  /** The block each bitmap is copied as, in list order. */
  function Blocks(bitmaps: seq<Bitmap>, atlasHeight: int): (blocks: seq<Block>)
    reads bitmaps
    requires AllPositioned(bitmaps)
    ensures |blocks| == |bitmaps|
    ensures forall i :: 0 <= i < |bitmaps| ==>
      blocks[i] == Block(bitmaps[i].positionRect.value.left, atlasHeight - bitmaps[i].positionRect.value.top, bitmaps[i].image)
  {
    seq(|bitmaps|, i requires 0 <= i < |bitmaps| && bitmaps[i].positionRect.Some? reads bitmaps =>
      Block(bitmaps[i].positionRect.value.left, atlasHeight - bitmaps[i].positionRect.value.top, bitmaps[i].image))
  }

  /**
   * Draws the atlas: a canvas of the atlas size, all zero, with each bitmap's
   * pixels copied in list order at its flipped origin.
   */
  method RenderAtlasTexture(atlasWidth: nat, atlasHeight: nat, bitmaps: seq<Bitmap>) returns (canvas: array2<int>)
    requires AllPositioned(bitmaps)
    requires forall i :: 0 <= i < |bitmaps| ==> Placeable(bitmaps[i], atlasWidth, atlasHeight)
    ensures fresh(canvas) && canvas.Length0 == atlasWidth && canvas.Length1 == atlasHeight
    ensures forall x, y :: 0 <= x < atlasWidth && 0 <= y < atlasHeight ==>
      canvas[x, y] == Composite(Blocks(bitmaps, atlasHeight), x, y)
  {
    canvas := new int[atlasWidth, atlasHeight]((x, y) => 0);
    ghost var blocks := Blocks(bitmaps, atlasHeight);
    for i := 0 to |bitmaps|
      invariant forall x, y :: 0 <= x < atlasWidth && 0 <= y < atlasHeight ==>
        canvas[x, y] == Composite(blocks[..i], x, y)
    {
      var b := bitmaps[i];
      var rect := b.positionRect.value;
      FlipInside(rect, atlasWidth, atlasHeight);
      SetRGB(canvas, rect.left, atlasHeight - rect.top, b.image);
      assert blocks[..i + 1][..i] == blocks[..i];
    }
    assert blocks[..|bitmaps|] == blocks;
  }

  /**
   * When the placed rectangles do not overlap, every bitmap appears intact on
   * the atlas: each canvas pixel of its flipped block holds its own pixel.
   */
  lemma RenderedBitmapsIntact(bitmaps: seq<Bitmap>, atlasWidth: nat, atlasHeight: nat, k: nat, x: int, y: int)
    requires AllPositioned(bitmaps)
    requires forall i :: 0 <= i < |bitmaps| ==> Placeable(bitmaps[i], atlasWidth, atlasHeight)
    requires forall i, j :: 0 <= i < j < |bitmaps| ==> !Overlap(bitmaps[i].positionRect.value, bitmaps[j].positionRect.value)
    requires k < |bitmaps| && Covers(bitmaps[k].positionRect.value, atlasHeight, x, y)
    ensures var r := bitmaps[k].positionRect.value;
      Composite(Blocks(bitmaps, atlasHeight), x, y) == Pixel(bitmaps[k].image, x - r.left, y - (atlasHeight - r.top))
  {
    var blocks := Blocks(bitmaps, atlasHeight);
    forall i, j, x', y' | 0 <= i < j < |blocks| && InBlock(blocks[i], x', y')
      ensures !InBlock(blocks[j], x', y')
    {
      assert Covers(bitmaps[i].positionRect.value, atlasHeight, x', y');
      FlipKeepsApart(bitmaps[i].positionRect.value, bitmaps[j].positionRect.value, atlasHeight, x', y');
    }
    CompositeShowsBlock(blocks, k, x, y);
  }
}

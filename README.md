# texture-packer in Dafny

A model of the packing core of texture-packer. The tool reads a directory of
bitmaps, packs them into one power-of-two texture atlas, draws the atlas, and
writes a text manifest that gives each bitmap's rectangle in the atlas.

The model covers the following parts of the tool:

- **Rectangles**: the `Rectangle` value, its derived width and height, and its
  debug text. `Rect` takes any four integers, because the source does not
  validate them.
- **TreeModel**: the packing tree as a value (`Tree`, `Place`). This is the
  pure specification of the "lightmap" binary-space-partition packer. The
  geometric facts are proved about it:
  - exact size;
  - containment in the root;
  - a split partitions its parent;
  - occupied leaves never overlap;
  - a failed insert changes nothing;
  - an empty leaf that fits always accepts within two splits.
  One packing attempt (`Pack`, `Attempt`) inserts a list of sizes into a fresh
  tree and stops at the first failure.
- **BitmapTrees**: the imperative `BitmapTree` and `BitmapNode` classes. A node
  updates its `left`, `right` and `hasBitmap` fields in place, and sets the
  bitmap's position. Every insert is proved to do exactly what `Place` does to
  the node's abstract tree.
- **Bitmaps**: the `Bitmap` class:
  - its name, derived from the file name up to the first dot;
  - its derived area and perimeter;
  - its one mutable field, the position rectangle;
  - `toDataString`, which is proved to split back into its fields.
- **Sorting** and **Comparators**:
  - `Collections.sort`, modelled as an insertion sort that is proved to be a
    sorted permutation under any antisymmetric, transitive comparator;
  - the area comparator, which orders largest first;
  - the name comparator, i.e. `String.compareTo`, which is proved equal to
    lexicographic order.
- **AtlasSizing**: `nextPowerOf2`, `estimateDimensions`, and the growth step of
  the retry loop. The atlas keeps a power-of-two shape whose width is the
  height or twice it. Its area doubles on each failed attempt.
- **Positioning**: `positionBitmaps`. Each attempt builds a brand-new tree and
  stops at the first bitmap that does not fit. On success, every bitmap holds a
  rectangle of its own size inside the atlas, and no two of them overlap.
- **Manifest**: the header and the name-sorted records that `process` writes.
  The manifest is proved to read back (split at newlines and spaces, numbers
  parsed) as exactly the data it was written from, when names are plain.
- **Render**: the offset arithmetic of `renderAtlasTexture`. Each bitmap is
  copied to `x = left`, `y = atlasHeight - top` on a two-dimensional canvas.
  Every bitmap's pixels are proved to show intact in the atlas.
- **TexturePacker**: `process` as a whole. It loads, sorts by area, sizes and
  positions, renders, sorts by name, and writes the manifest.

Reading and writing files, decoding images, the directory listing and timing
are outside the model. A loaded file arrives as its name and its decoded image,
and the manifest and the atlas are returned.

## Model

| member | source | states |
|---|---|---|
| Rectangles.Rect.ToString | src/com/parthtejani/texturepacker/Rectangle.java:22-32 | the text splits at spaces into the labels Left, Right, Bottom, Top, Width, Height, each followed by its value, in that order |
| Rectangles.DebugStringDeterminesRect | src/com/parthtejani/texturepacker/Rectangle.java:13-32 | two rectangles with the same `toString` text are the same rectangle |
| Rectangles.Rect.Width | src/com/parthtejani/texturepacker/Rectangle.java:18 | the right edge is the left edge moved by the width, and the width is non-negative exactly when left ≤ right |
| Rectangles.Rect.Height | src/com/parthtejani/texturepacker/Rectangle.java:19 | the top edge is the bottom edge moved by the height, and the height is non-negative exactly when bottom ≤ top |
| TreeModel.Fits | src/com/parthtejani/texturepacker/BitmapTree.java:97-99 | for a bitmap of non-negative size, fitting means the bitmap's rectangle anchored at the node's top-left corner lies inside the node |
| TreeModel.FitsExact | src/com/parthtejani/texturepacker/BitmapTree.java:101-103 | an exact fit means the anchored bitmap rectangle is the node's rectangle itself, and an exact fit is a fit |
| TreeModel.SplitRects | src/com/parthtejani/texturepacker/BitmapTree.java:81-90 | the left child starts at the parent's top-left corner and the right child ends at its bottom-right; with deltaWidth > deltaHeight the left child is a column of the bitmap's width and the two widths add up to the parent's, otherwise it is a strip of the bitmap's height and the two heights add up |
| TreeModel.Place | src/com/parthtejani/texturepacker/BitmapTree.java:49-95 | an insert keeps the node's rectangle, and a rectangle it hands out has exactly the bitmap's width and height |
| TreeModel.LeafAccepts | src/com/parthtejani/texturepacker/BitmapTree.java:58-93 | a leaf accepts exactly when it is empty and the bitmap fits; a rejecting leaf is unchanged; an exact fit occupies the leaf and hands out its own rectangle; any other fit ends in an exact fit within two splits |
| TreeModel.SplitPartitions | src/com/parthtejani/texturepacker/BitmapTree.java:81-90 | the two children lie inside the parent, do not overlap, and cover every cell of it; the left child is the bitmap-width column when deltaWidth > deltaHeight, otherwise the top strip of bitmap height |
| TreeModel.ChangesOneSide | src/com/parthtejani/texturepacker/BitmapTree.java:51-57 | an internal node stays internal; if the left subtree accepts, the right is untouched, otherwise the left is unchanged and the right's answer is returned |
| TreeModel.FailureChangesNothing | src/com/parthtejani/texturepacker/BitmapTree.java:49-95 | a failed insert leaves the whole tree as it was, with no half-built children |
| TreeModel.PlacedInside | src/com/parthtejani/texturepacker/BitmapTree.java:71-93 | in a well-formed tree, the handed-out rectangle lies inside the root rectangle |
| TreeModel.PlaceKeepsWellFormed | src/com/parthtejani/texturepacker/BitmapTree.java:81-93 | an insert keeps every child inside its parent and siblings disjoint |
| TreeModel.ClaimsOneLeaf | src/com/parthtejani/texturepacker/BitmapTree.java:71-75 | the occupied rectangles after an insert are those before it plus the handed-out one, and nothing else |
| TreeModel.OccupiedInside | src/com/parthtejani/texturepacker/BitmapTree.java:49-95 | every occupied rectangle of a well-formed tree lies inside its root |
| TreeModel.OccupiedDisjoint | src/com/parthtejani/texturepacker/BitmapTree.java:49-95 | no two occupied rectangles of a well-formed tree overlap |
| TreeModel.PlacedAvoidsOccupied | src/com/parthtejani/texturepacker/BitmapTree.java:49-95 | a handed-out rectangle overlaps no rectangle that was already occupied |
| TreeModel.NewTree | src/com/parthtejani/texturepacker/BitmapTree.java:24-26 | a fresh tree is one empty leaf with left = 0, bottom = 0 and the given width and height |
| TreeModel.PackPlacesPrefix | src/com/parthtejani/texturepacker/TexturePacker.java:141-147 | an attempt places a prefix of the sizes, each rectangle of its size, and succeeds exactly when it places all of them |
| TreeModel.PackClaimsPlaced | src/com/parthtejani/texturepacker/TexturePacker.java:141-147 | after an attempt the tree is well formed, and its occupied rectangles are exactly the ones placed |
| TreeModel.PackStopsAtFailure | src/com/parthtejani/texturepacker/TexturePacker.java:142-147 | once an insert fails, the later sizes change nothing: the attempt breaks at the first failure |
| TreeModel.PackDisjointInside | src/com/parthtejani/texturepacker/TexturePacker.java:141-147 | the rectangles placed in a fresh width × height tree do not overlap and lie inside [0, width] × [0, height] |
| TreeModel.Pack | src/com/parthtejani/texturepacker/TexturePacker.java:142-147 | the inserts never change the root rectangle, and place at most one rectangle per bitmap |
| TreeModel.Attempt | src/com/parthtejani/texturepacker/TexturePacker.java:141-147 | a successful attempt gives every size a rectangle of that size inside the atlas, and no two overlap |
| TreeModel.AttemptOne | src/com/parthtejani/texturepacker/TexturePacker.java:141-147 | a lone bitmap fits a fresh atlas exactly when it is no wider and no taller than the atlas |
| BitmapTrees.BitmapNode.constructor | src/com/parthtejani/texturepacker/BitmapTree.java:45-47 | a new node is an empty leaf over the given rectangle |
| BitmapTrees.BitmapNode.Insert | src/com/parthtejani/texturepacker/BitmapTree.java:49-95 | the node's tree becomes exactly what `Place` gives, the result says whether a rectangle was handed out, and only then is the bitmap's position set to it |
| BitmapTrees.BitmapNode.InsertBelow | src/com/parthtejani/texturepacker/BitmapTree.java:51-57 | the same, for an internal node: left child first, the right only when the left fails |
| BitmapTrees.BitmapNode.InsertAtLeaf | src/com/parthtejani/texturepacker/BitmapTree.java:58-94 | the same, for a leaf: reject, claim on exact fit, or split and insert into the new left child |
| BitmapTrees.BitmapTree.constructor | src/com/parthtejani/texturepacker/BitmapTree.java:24-26 | the root is an empty leaf over (0, dimensions[0], 0, dimensions[1]) |
| BitmapTrees.BitmapTree.Insert | src/com/parthtejani/texturepacker/BitmapTree.java:34-36 | inserting into the tree is the root's insert, with the same result and the same effect on the model |
| Text.ParseIntToString | src/com/parthtejani/texturepacker/TexturePacker.java:94 | the decimal text Java writes for an int reads back as that int |
| Text.SplitJoin | src/com/parthtejani/texturepacker/TexturePacker.java:94-98 | lines joined by newlines, none holding a newline, split back into the same lines |
| Text.IntToString | src/com/parthtejani/texturepacker/TexturePacker.java:94 | the decimal text of an int is non-empty and made of digits, with a leading '-' only for a negative number |
| Bitmaps.BaseName | src/com/parthtejani/texturepacker/Bitmap.java:23 | the name is the longest prefix of the file name without a dot, and it is followed by a dot unless it is the whole file name; there is no name exactly when the file name is non-empty and all dots |
| Bitmaps.BaseNameDropsExtension | src/com/parthtejani/texturepacker/Bitmap.java:23 | "stem.ext" is named "stem" |
| Bitmaps.Bitmap.constructor | src/com/parthtejani/texturepacker/Bitmap.java:21-29 | the bitmap's name comes from the file name; its width and height are the image's; area = width·height; perimeter = 2·width + 2·height; no position yet |
| Bitmaps.Bitmap.GetPositionRect | src/com/parthtejani/texturepacker/Bitmap.java:31-33 | returns the position last set, or none |
| Bitmaps.Bitmap.SetPositionRect | src/com/parthtejani/texturepacker/Bitmap.java:35-37 | the position becomes the given rectangle, and no other field changes |
| Bitmaps.DataLineFields | src/com/parthtejani/texturepacker/Bitmap.java:55-63 | a record splits at spaces into name, left, right, bottom and top, with an empty field for the trailing space |
| Bitmaps.DataLine | src/com/parthtejani/texturepacker/Bitmap.java:55-63 | a record starts with the name and a space and ends with a space, and holds a newline exactly when the name does |
| Bitmaps.DataLineRoundTrip | src/com/parthtejani/texturepacker/Bitmap.java:55-63 | a record whose name has no space parses back to that name and rectangle |
| Bitmaps.Bitmap.ToDataString | src/com/parthtejani/texturepacker/Bitmap.java:55-63 | needs a position; for a name without spaces the text splits into the record fields and parses back to the name and position |
| Sorting.SortBy | src/com/parthtejani/texturepacker/TexturePacker.java:78 | the sorted list is a permutation of the input |
| Sorting.SortBySorted | src/com/parthtejani/texturepacker/TexturePacker.java:78 | under an antisymmetric, transitive comparator, every earlier element compares ≤ 0 to every later one |
| Comparators.CompareByArea | src/com/parthtejani/texturepacker/BitmapAreaComparator.java:11-13 | negative exactly when b1's area is larger, zero exactly when the areas are equal, and inside int range whenever both areas are |
| Comparators.CompareByAreaAntisymmetric | src/com/parthtejani/texturepacker/BitmapAreaComparator.java:11-13 | compare(b1, b2) = −compare(b2, b1) |
| Comparators.CompareByAreaIsComparator | src/com/parthtejani/texturepacker/BitmapAreaComparator.java:11-13 | the area comparator is antisymmetric and transitive |
| Comparators.SortByAreaNonIncreasing | src/com/parthtejani/texturepacker/TexturePacker.java:78 | sorting by area gives a permutation whose areas do not increase |
| Comparators.CompareStrings | src/com/parthtejani/texturepacker/BitmapNameComparator.java:11-13 | `compareTo` is zero exactly when the strings are equal |
| Comparators.PrecedesTail | src/com/parthtejani/texturepacker/BitmapNameComparator.java:11-13 | dropping a common first character keeps lexicographic order, in both directions |
| Comparators.CompareStringsPrecedes | src/com/parthtejani/texturepacker/BitmapNameComparator.java:11-13 | `compareTo` is negative exactly when the first string precedes the second lexicographically |
| Comparators.CompareStringsAntisymmetric | src/com/parthtejani/texturepacker/BitmapNameComparator.java:11-13 | compareTo(a, b) = −compareTo(b, a) |
| Comparators.CompareStringsTransitive | src/com/parthtejani/texturepacker/BitmapNameComparator.java:11-13 | a ≤ b and b ≤ c give a ≤ c |
| Comparators.PrefixFirst | src/com/parthtejani/texturepacker/BitmapNameComparator.java:11-13 | a proper prefix sorts before any longer name that extends it |
| Comparators.CompareByName | src/com/parthtejani/texturepacker/BitmapNameComparator.java:11-13 | negative exactly when b1's name precedes b2's, zero exactly when the names are equal |
| Comparators.CompareByNameIsComparator | src/com/parthtejani/texturepacker/BitmapNameComparator.java:11-13 | the name comparator is antisymmetric and transitive |
| Comparators.SortByNameAscending | src/com/parthtejani/texturepacker/TexturePacker.java:95 | sorting by name gives a permutation whose names ascend lexicographically |
| AtlasSizing.NextPowerOf2 | src/com/parthtejani/texturepacker/TexturePacker.java:183-189 | the least power of two ≥ value, and 1 when value ≤ 1 |
| AtlasSizing.NextPowerOf2OfSqrt | src/com/parthtejani/texturepacker/TexturePacker.java:115 | the least power of two w with w·w ≥ the total area, i.e. the least power of two ≥ its square root |
| AtlasSizing.EstimateDimensions | src/com/parthtejani/texturepacker/TexturePacker.java:106-122 | width is the least power of two whose square covers the total area; height is the least power of two with height·width ≥ the area; the width equals the height or is twice it |
| AtlasSizing.EstimateIsShape | src/com/parthtejani/texturepacker/TexturePacker.java:114-116 | the two minimal choices give width = height or width = 2·height, hence width ≥ height |
| AtlasSizing.EstimateOf65Square | src/com/parthtejani/texturepacker/TexturePacker.java:106-122 | a single 65×65 bitmap (area 4225) gets the estimate 128×64 |
| AtlasSizing.SumAreas | src/com/parthtejani/texturepacker/TexturePacker.java:109-112 | the total is at least each bitmap's area, and it is zero when every area is zero |
| AtlasSizing.Grow | src/com/parthtejani/texturepacker/TexturePacker.java:154-158 | one growth step doubles the area; a square becomes twice as wide as high, and a 2:1 rectangle becomes square |
| AtlasSizing.GrowKeepsShape | src/com/parthtejani/texturepacker/TexturePacker.java:149-159 | one growth step keeps both sides powers of two, keeps width ≥ height, and exactly doubles the area |
| AtlasSizing.GrowNKeepsShape | src/com/parthtejani/texturepacker/TexturePacker.java:133-162 | after n failed attempts the shape holds and the area is 2ⁿ times the estimate |
| Positioning.PackAttempt | src/com/parthtejani/texturepacker/TexturePacker.java:141-147 | one attempt with a brand-new tree succeeds exactly when `Attempt` does, and then each bitmap's position is its placed rectangle |
| Positioning.PositionBitmaps | src/com/parthtejani/texturepacker/TexturePacker.java:129-163 | at least one attempt runs; the dimensions are the estimate grown once per failure; every earlier attempt failed; on success the final attempt placed every bitmap |
| Manifest.HeaderRoundTrip | src/com/parthtejani/texturepacker/TexturePacker.java:94 | the header parses back to count, width and height |
| Manifest.RecordsRoundTrip | src/com/parthtejani/texturepacker/TexturePacker.java:96-98 | records with plain names parse back to their entries |
| Manifest.ManifestRoundTrip | src/com/parthtejani/texturepacker/TexturePacker.java:94-98 | a manifest with plain names reads back as exactly the count, size and entries it was written from |
| Manifest.Header | src/com/parthtejani/texturepacker/TexturePacker.java:94 | the header is a single line: it holds no newline |
| Manifest.JoinRecordsSnoc | src/com/parthtejani/texturepacker/TexturePacker.java:96-98 | one more entry adds a newline and its record to the end of the text |
| Manifest.ManifestStep | src/com/parthtejani/texturepacker/TexturePacker.java:96-98 | each bitmap adds a newline and its record to the end of the text |
| Manifest.WriteManifest | src/com/parthtejani/texturepacker/TexturePacker.java:94-98 | the text is the header and then, per bitmap in list order, a newline and its record (no trailing newline), and it reads back when names are plain |
| Render.FlipInside | src/com/parthtejani/texturepacker/TexturePacker.java:176-177 | a rectangle inside the atlas is copied at (left, atlasHeight − top), and its block lies inside the canvas and covers the flipped cells of the rectangle |
| Render.CompositeShowsBlock | src/com/parthtejani/texturepacker/TexturePacker.java:171-178 | when blocks do not overlap, a covered pixel shows its own block's pixel |
| Render.SetRGB | src/com/parthtejani/texturepacker/TexturePacker.java:176-177 | the block's pixels are copied to the canvas at the offset, and every other canvas pixel is unchanged |
| Render.RenderAtlasTexture | src/com/parthtejani/texturepacker/TexturePacker.java:165-181 | the canvas has the atlas size and shows the blocks copied in list order over a blank canvas |
| Render.RenderedBitmapsIntact | src/com/parthtejani/texturepacker/TexturePacker.java:171-178 | with non-overlapping placements inside the atlas, every pixel a bitmap's flipped rectangle covers shows that bitmap's pixel |
| TexturePacker.LoadBitmaps | src/com/parthtejani/texturepacker/TexturePacker.java:72-75 | one new bitmap per file, in order, each with the file's name and image |
| TexturePacker.AttemptPacks | src/com/parthtejani/texturepacker/TexturePacker.java:82 | after a successful attempt every bitmap has a rectangle of its size inside the atlas, and no two overlap |
| TexturePacker.PackedPermutation | src/com/parthtejani/texturepacker/TexturePacker.java:95 | re-sorting a packed list keeps it packed: the name sort moves no rectangle |
| TexturePacker.EveryFileListed | src/com/parthtejani/texturepacker/TexturePacker.java:72-78 | every file still has its bitmap, with its name and image, after reordering |
| TexturePacker.AtlasShowsAll | src/com/parthtejani/texturepacker/TexturePacker.java:83-95 | the rendered atlas shows every bitmap of the name-sorted list intact at its flipped rectangle |
| TexturePacker.SizedShape | src/com/parthtejani/texturepacker/TexturePacker.java:133-162 | every size the sizing loop settles on is a power-of-two square or 2:1 landscape |
| TexturePacker.SizedByFirstFit | src/com/parthtejani/texturepacker/TexturePacker.java:129-163 | the sizing loop settles on the first size of the growth sequence that holds every bitmap, after exactly that many attempts plus one |
| TexturePacker.OneSquareOf65 | src/com/parthtejani/texturepacker/TexturePacker.java:106-163 | a lone 65×65 bitmap is first tried on 128×64, fails there, and ends on 128×128 after the second attempt |
| TexturePacker.OneFileOf65 | src/com/parthtejani/texturepacker/TexturePacker.java:72-78 | one 65×65 image gives the sizing loop the single size 65×65 and the total area 4225 |
| TexturePacker.SizeAndPosition | src/com/parthtejani/texturepacker/TexturePacker.java:81-82 | the estimate is the least power-of-two width and then height covering the total area; the result is the estimate grown once per failed attempt, and every earlier size failed; on success the final attempt placed every bitmap, each bitmap's position is its rectangle from that attempt, the atlas has the power-of-two shape and the list is packed into it |
| TexturePacker.LoadAndPosition | src/com/parthtejani/texturepacker/TexturePacker.java:72-82 | one bitmap per file with its name and image; the area-sorted list is exactly the loaded list sorted by the area comparator; the sizing facts of `SizeAndPosition` hold for it, and on success it is packed, without repeats, into an atlas of the right shape |
| TexturePacker.RenderAndDescribe | src/com/parthtejani/texturepacker/TexturePacker.java:83-98 | the bitmaps are unchanged; the name-sorted list is the area-sorted list sorted by the name comparator, packed, in name order; the manifest describes it; the atlas has the atlas size and shows each bitmap intact |
| TexturePacker.Process | src/com/parthtejani/texturepacker/TexturePacker.java:67-100 | the loaded list, its area sort and the sizing run are as in `LoadAndPosition`; on success: the final attempt's rectangles are the positions, the returned list is the area-sorted list sorted by name, the atlas has power-of-two sides with width = height or 2·height; every file's bitmap is listed once, in name order, at a rectangle of its size inside the atlas, no two overlapping; the atlas shows each bitmap intact; the manifest is the header and records and reads back as that data for plain names |

## Left out

- FontRasterizer.java is not part of this model. It is font rendering through AWT, with no packing logic.
- File I/O is left out: the directory listing and hidden-file filter, `mkdirs`, creating and deleting files, `BufferedWriter`, `ImageIO.read`/`write`, and the timing. Files arrive as (name, decoded image) pairs. The manifest is returned as a string and the atlas as an `array2<int>`.
- `BufferedImage.getRGB`/`setRGB` are modelled as a copy between an image's row grid and a two-dimensional canvas (`Render.SetRGB`). The flat ARGB buffer, the scan stride and the pixel format are not modelled.
- Integer overflow. Java's 32-bit `int` is modelled as an unbounded integer in these places:
  - `width*height` and `width*2 + height*2` in the constructor;
  - the sums in `estimateDimensions`;
  - the doubling in `nextPowerOf2` and `positionBitmaps`.
  Only the comparator's subtraction carries an explicit int-range statement.
- AtlasSizing.NextPowerOf2: takes an exact `real` where Java takes a `double`. Rounding of `Math.sqrt` and of `sumArea/width` is not modelled. The square root is characterised exactly in integers instead: the least power of two w with w·w ≥ area.
- AtlasSizing.EstimateDimensions: sums the areas exactly, so a `double` sum losing precision above 2⁵³ is not modelled.
- Positioning.PositionBitmaps: takes a `fuel` bound on the number of attempts, where the source loops until everything fits. Termination of the source loop is not claimed. When fuel runs out, the result reports failure and the positions from the last attempt are left as they are.
- TexturePacker.Process: takes the same `fuel` bound. When fuel runs out it returns no manifest and no atlas, where the source would keep looping.
- Bitmaps.Bitmap.constructor: requires a file name that is not empty-and-all-dots. For such a name Java's `split("\\.")[0]` throws; that error path is not modelled.
- Bitmaps.Bitmap.ToDataString and Manifest.WriteManifest: the read-back is promised only for names with no space or newline. Such names produce ambiguous records in the source too.
- The order of equal-area bitmaps, and of the directory listing, is not modelled. `Collections.sort` is modelled by one particular stable insertion sort (`Sorting.SortBy`); only its sortedness and permutation are relied on.
- Comparators.CompareStrings: compares Dafny `char`s, which are Unicode scalar values, where `String.compareTo` compares UTF-16 code units. The sign can differ for names with supplementary characters (above U+FFFF): Java sees their surrogate units (D800–DFFF) as below U+E000–U+FFFF, while code-point order puts them above.
- The header is written before the name sort in the source, and after it in the model. The header depends only on the count and the dimensions, so the text is the same.
- Each packing attempt of `positionBitmaps` is the separate method `Positioning.PackAttempt`.
- `process` is split into `TexturePacker.LoadAndPosition`, `TexturePacker.SizeAndPosition`, `TexturePacker.RenderAndDescribe` and `TexturePacker.Process` so that each proof stays small.
- `Bitmap.toString` and `main`'s argument handling are left out. They are debug output and command-line parsing.
- Distinct bitmaps. The positioning methods require the list to hold no bitmap twice. `process` always builds it that way, one new bitmap per file.
- `BitmapNode.rect` is a non-final field in the source but is never reassigned, so it is a `const`.

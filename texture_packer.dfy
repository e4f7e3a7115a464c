/**
 * One atlas from one directory of images: load the bitmaps, pack them
 * largest first into the smallest atlas the sizing loop finds, draw the
 * atlas, and write the manifest in name order.
 */
module TexturePacker {
  import opened Wrappers
  import opened Rectangles
  import opened TreeModel
  import opened Bitmaps
  import opened Sorting
  import opened Comparators
  import opened AtlasSizing
  import opened Positioning
  import opened Manifest
  import opened Render

  /**
   * Makes one bitmap per file, in order. Reading the directory and decoding
   * the files happen outside the model: each file arrives as its name and
   * its decoded image.
   */
  method LoadBitmaps(files: seq<(string, Image)>) returns (bitmaps: seq<Bitmap>)
    requires forall i :: 0 <= i < |files| ==> BaseName(files[i].0).Some?
    ensures |bitmaps| == |files| && Distinct(bitmaps)
    ensures forall i :: 0 <= i < |files| ==>
      && fresh(bitmaps[i]) && bitmaps[i].Wf() && bitmaps[i].positionRect.None?
      && bitmaps[i].name == BaseName(files[i].0).value && bitmaps[i].image == files[i].1
  {
    bitmaps := [];
    for i := 0 to |files|
      invariant |bitmaps| == i && Distinct(bitmaps)
      invariant forall k :: 0 <= k < i ==>
        && fresh(bitmaps[k]) && bitmaps[k].Wf() && bitmaps[k].positionRect.None?
        && bitmaps[k].name == BaseName(files[k].0).value && bitmaps[k].image == files[k].1
    {
      var b := new Bitmap(files[i].0, files[i].1);
      bitmaps := bitmaps + [b];
    }
  }

  /** Every bitmap of the list is drawable on a width × height atlas, and no two overlap. */
  ghost predicate Packed(bitmaps: seq<Bitmap>, width: int, height: int)
    reads bitmaps
  {
    && AllPositioned(bitmaps)
    && (forall i :: 0 <= i < |bitmaps| ==> Placeable(bitmaps[i], width, height))
    && (forall i, j :: 0 <= i < j < |bitmaps| ==> !Overlap(bitmaps[i].positionRect.value, bitmaps[j].positionRect.value))
  }

  /** The successful attempt leaves the area-sorted list packed. */
  lemma AttemptPacks(bitmaps: seq<Bitmap>, width: nat, height: nat)
    requires forall i :: 0 <= i < |bitmaps| ==> bitmaps[i].Wf() && bitmaps[i].image.Valid()
    requires var p := Attempt(Sizes(bitmaps), width, height);
      p.allFit && |p.placed| == |bitmaps| && PlacedAt(bitmaps, p.placed, |bitmaps|)
    ensures Packed(bitmaps, width, height)
  {
    var p := Attempt(Sizes(bitmaps), width, height);
    forall i | 0 <= i < |bitmaps| ensures Placeable(bitmaps[i], width, height) {
      assert p.placed[i] in p.placed;
    }
    forall i, j | 0 <= i < j < |bitmaps|
      ensures !Overlap(bitmaps[i].positionRect.value, bitmaps[j].positionRect.value)
    {
      assert bitmaps[i].positionRect.value == p.placed[i];
    }
  }

  /** A reordering of a packed list without repeats is packed. */
  lemma PackedPermutation(s: seq<Bitmap>, r: seq<Bitmap>, width: int, height: int)
    requires Packed(s, width, height) && Distinct(s) && multiset(r) == multiset(s)
    ensures Packed(r, width, height) && Distinct(r)
  {
    DistinctPermutation(s, r);
    forall i | 0 <= i < |r| ensures r[i] in s {
      assert r[i] in multiset(s);
    }
    forall i, j | 0 <= i < j < |r|
      ensures !Overlap(r[i].positionRect.value, r[j].positionRect.value)
    {
      var a :| 0 <= a < |s| && s[a] == r[i];
      var b :| 0 <= b < |s| && s[b] == r[j];
      if a < b {
        assert !Overlap(s[a].positionRect.value, s[b].positionRect.value);
      } else {
        assert !Overlap(s[b].positionRect.value, s[a].positionRect.value);
        OverlapSymmetric(s[a].positionRect.value, s[b].positionRect.value);
      }
    }
  }

  /** Some bitmap of the list carries this name and this image. */
  predicate Lists(bitmaps: seq<Bitmap>, name: string, image: Image)
    reads bitmaps
  {
    exists j :: 0 <= j < |bitmaps| && bitmaps[j].name == name && bitmaps[j].image == image
  }

  /** Every file has a bitmap, with its name and image, somewhere in a reordering of the loaded list. */
  lemma EveryFileListed(files: seq<(string, Image)>, loaded: seq<Bitmap>, bitmaps: seq<Bitmap>)
    requires |loaded| == |files| && multiset(bitmaps) == multiset(loaded)
    requires forall i :: 0 <= i < |files| ==> BaseName(files[i].0).Some?
    requires forall i :: 0 <= i < |files| ==> loaded[i].name == BaseName(files[i].0).value && loaded[i].image == files[i].1
    ensures forall i :: 0 <= i < |files| ==> Lists(bitmaps, BaseName(files[i].0).value, files[i].1)
  {
    forall i | 0 <= i < |files| ensures Lists(bitmaps, BaseName(files[i].0).value, files[i].1) {
      assert loaded[i] in multiset(bitmaps);
      var j :| 0 <= j < |bitmaps| && bitmaps[j] == loaded[i];
    }
  }

  /**
   * Each bitmap of the list is packed into the atlas, and every atlas pixel
   * its rectangle covers (flipped, the top of the rectangle at the top of
   * the atlas) holds the bitmap's own pixel.
   */
  ghost predicate ShowsIntact(atlas: array2<int>, bitmaps: seq<Bitmap>)
    reads atlas, bitmaps
  {
    var height := atlas.Length1;
    && Packed(bitmaps, atlas.Length0, height)
    && forall k, x, y :: 0 <= k < |bitmaps| && Covers(bitmaps[k].positionRect.value, height, x, y) ==>
         atlas[x, y] == Pixel(bitmaps[k].image, x - bitmaps[k].positionRect.value.left, y - (height - bitmaps[k].positionRect.value.top))
  }

  /**
   * The manifest is the header and one record per bitmap of the list, and
   * reads back as exactly that data when no name holds a space or a newline.
   */
  ghost predicate Describes(manifest: string, count: int, width: int, height: int, bitmaps: seq<Bitmap>)
    reads bitmaps
  {
    && AllPositioned(bitmaps)
    && manifest == ManifestText(ManifestData(count, width, height, Entries(bitmaps)))
    && ((forall i :: 0 <= i < |bitmaps| ==> PlainName(bitmaps[i].name)) ==>
          ParseManifest(manifest) == Some(ManifestData(count, width, height, Entries(bitmaps))))
  }

  /** The drawn atlas shows every bitmap of a reordering of the drawn list intact. */
  lemma AtlasShowsAll(atlas: array2<int>, drawn: seq<Bitmap>, bitmaps: seq<Bitmap>, width: nat, height: nat)
    requires Packed(drawn, width, height) && Packed(bitmaps, width, height) && multiset(bitmaps) == multiset(drawn)
    requires atlas.Length0 == width && atlas.Length1 == height
    requires forall x, y :: 0 <= x < width && 0 <= y < height ==> atlas[x, y] == Composite(Blocks(drawn, height), x, y)
    ensures ShowsIntact(atlas, bitmaps)
  {
    forall k, x, y | 0 <= k < |bitmaps| && Covers(bitmaps[k].positionRect.value, height, x, y)
      ensures atlas[x, y] == Pixel(bitmaps[k].image, x - bitmaps[k].positionRect.value.left, y - (height - bitmaps[k].positionRect.value.top))
    {
      assert bitmaps[k] in multiset(drawn);
      var m :| 0 <= m < |drawn| && drawn[m] == bitmaps[k];
      FlipInside(drawn[m].positionRect.value, width, height);
      RenderedBitmapsIntact(drawn, width, height, m, x, y);
    }
  }

  /**
   * The outcome of the sizing loop for bitmaps of these sizes and this total
   * area: it starts from the estimate, grows once per attempt that fails to
   * place every bitmap, and stops at the first attempt that places them all
   * or once `fuel` attempts are spent. `count` is the number of attempts.
   */
  ghost predicate SizedBy(sizes: seq<(nat, nat)>, area: nat, fuel: nat, fitted: bool,
                          width: int, height: int, width0: nat, height0: nat, count: nat)
  {
    && IsEstimate(area, width0, height0)
    && count >= 1 && (fitted || count >= fuel)
    && var failures := if fitted then count - 1 else count;
       && (width, height) == GrowN(width0, height0, failures)
       && (forall k :: 0 <= k < failures ==>
             var (w, h) := GrowN(width0, height0, k);
             !Attempt(sizes, w, h).allFit)
       && (fitted ==> Attempt(sizes, width, height).allFit)
  }

  /** Every size the sizing loop settles on has the atlas shape, since the estimate has it and growth keeps it. */
  lemma SizedShape(sizes: seq<(nat, nat)>, area: nat, fuel: nat, fitted: bool,
                   width: int, height: int, width0: nat, height0: nat, count: nat)
    requires SizedBy(sizes, area, fuel, fitted, width, height, width0, height0, count)
    ensures Shape(width, height)
  {
    EstimateIsShape(area, width0, height0);
    var failures := if fitted then count - 1 else count;
    GrowNKeepsShape(width0, height0, failures);
  }

  /**
   * The sizing loop settles on the first size in the growth sequence that
   * holds every bitmap, provided that size comes within `fuel` attempts.
   */
  lemma {:induction false} SizedByFirstFit(sizes: seq<(nat, nat)>, area: nat, fuel: nat, fitted: bool,
                                           width: int, height: int, width0: nat, height0: nat, count: nat, n: nat)
    requires SizedBy(sizes, area, fuel, fitted, width, height, width0, height0, count)
    requires n < fuel
    requires forall k :: 0 <= k < n ==> var (w, h) := GrowN(width0, height0, k); !Attempt(sizes, w, h).allFit
    requires var (w, h) := GrowN(width0, height0, n); Attempt(sizes, w, h).allFit
    ensures fitted && count == n + 1 && (width, height) == GrowN(width0, height0, n)
  {
    var failures := if fitted then count - 1 else count;
    assert failures <= n;
    assert fitted ==> failures >= n;
  }

  /**
   * A lone 65×65 bitmap is first tried on 128×64, where it does not fit,
   * and lands on 128×128 after one growth step.
   */
  lemma OneSquareOf65(fuel: nat, fitted: bool, width: int, height: int, width0: nat, height0: nat, count: nat)
    requires fuel >= 2
    requires SizedBy([(65, 65)], 65 * 65, fuel, fitted, width, height, width0, height0, count)
    ensures width0 == 128 && height0 == 64
    ensures fitted && count == 2 && width == 128 && height == 128
  {
    EstimateOf65Square(width0, height0);
    Square65Misses128By64();
    Square65Fits128By128();
    assert GrowN(128, 64, 1) == (128, 128);
    SizedByFirstFit([(65, 65)], 65 * 65, fuel, fitted, width, height, width0, height0, count, 1);
  }

  /** The 65×65 bitmap does not fit the estimated 128×64 atlas. */
  lemma Square65Misses128By64()
    ensures !Attempt([(65, 65)], 128, 64).allFit
  {
    AttemptOne(128, 64, 65, 65);
  }

  /** The 65×65 bitmap fits a 128×128 atlas. */
  lemma Square65Fits128By128()
    ensures Attempt([(65, 65)], 128, 128).allFit
  {
    AttemptOne(128, 128, 65, 65);
  }

  /**
   * A directory holding one 65×65 image gives the sizing loop the one size
   * 65×65 and the total area 4225, the case that `OneSquareOf65` settles.
   */
  lemma OneFileOf65(loaded: seq<Bitmap>, byArea: seq<Bitmap>)
    requires |loaded| == 1 && loaded[0].Wf() && loaded[0].image.width == 65 && loaded[0].image.height == 65
    requires byArea == SortBy(loaded, CompareByArea)
    ensures Sizes(byArea) == [(65, 65)] && SumAreas(byArea) == 65 * 65
  {
    assert loaded[..0] == [];
    assert byArea == loaded;
  }

  /**
   * Sizes the atlas for a list already sorted largest area first: estimate,
   * then grow until everything fits or `fuel` attempts are spent. The run
   * is the sizing loop over the list's sizes and total area; on success the
   * atlas has the right shape and each bitmap sits at the rectangle the
   * last attempt gave it, so the list is packed into the atlas.
   */
  method SizeAndPosition(bitmaps: seq<Bitmap>, fuel: nat)
    returns (fitted: bool, width: int, height: int, ghost width0: nat, ghost height0: nat, ghost count: nat)
    requires Distinct(bitmaps)
    requires forall i :: 0 <= i < |bitmaps| ==> bitmaps[i].Wf() && bitmaps[i].image.Valid()
    modifies bitmaps
    ensures SizedBy(Sizes(bitmaps), SumAreas(bitmaps), fuel, fitted, width, height, width0, height0, count)
    ensures fitted ==>
      && Shape(width, height)
      && |Attempt(Sizes(bitmaps), width, height).placed| == |bitmaps|
      && PlacedAt(bitmaps, Attempt(Sizes(bitmaps), width, height).placed, |bitmaps|)
      && Packed(bitmaps, width, height)
  {
    var dimensions := EstimateDimensions(bitmaps);
    width0, height0 := dimensions[0], dimensions[1];
    count, fitted := PositionBitmaps(dimensions, bitmaps, fuel);
    width, height := dimensions[0], dimensions[1];
    assert SizedBy(Sizes(bitmaps), SumAreas(bitmaps), fuel, fitted, width, height, width0, height0, count);
    if fitted {
      SizedShape(Sizes(bitmaps), SumAreas(bitmaps), fuel, fitted, width, height, width0, height0, count);
      AttemptPacks(bitmaps, width, height);
    }
  }

  /**
   * The first half of a run: load the files, sort the bitmaps largest area
   * first and size the atlas. The area-sorted list is the loaded list
   * sorted by the area comparator, and the sizing run is over its sizes; on
   * success it is packed, without repeats, into an atlas of the right shape.
   */
  method LoadAndPosition(files: seq<(string, Image)>, fuel: nat)
    returns (fitted: bool, width: int, height: int, loaded: seq<Bitmap>, byArea: seq<Bitmap>,
             ghost width0: nat, ghost height0: nat, ghost count: nat)
    requires forall i :: 0 <= i < |files| ==> BaseName(files[i].0).Some? && files[i].1.Valid()
    ensures |loaded| == |files|
    ensures forall i :: 0 <= i < |files| ==>
      loaded[i].Wf() && loaded[i].name == BaseName(files[i].0).value && loaded[i].image == files[i].1
    ensures byArea == SortBy(loaded, CompareByArea) && multiset(byArea) == multiset(loaded)
    ensures forall i :: 0 <= i < |byArea| ==> fresh(byArea[i])
    ensures SizedBy(Sizes(byArea), SumAreas(byArea), fuel, fitted, width, height, width0, height0, count)
    ensures fitted ==>
      && Shape(width, height) && Distinct(byArea)
      && |Attempt(Sizes(byArea), width, height).placed| == |byArea|
      && PlacedAt(byArea, Attempt(Sizes(byArea), width, height).placed, |byArea|)
      && Packed(byArea, width, height)
  {
    loaded := LoadBitmaps(files);
    byArea := SortBy(loaded, CompareByArea);
    DistinctPermutation(loaded, byArea);
    forall i | 0 <= i < |byArea| ensures fresh(byArea[i]) && byArea[i].Wf() && byArea[i].image.Valid() {
      assert byArea[i] in multiset(loaded);
    }
    fitted, width, height, width0, height0, count := SizeAndPosition(byArea, fuel);
  }

  /**
   * The second half of a successful run: draw the atlas from the
   * area-sorted list, sort the list by name and write the manifest for it.
   * The name-sorted list is packed, without repeats, in name order; the
   * manifest describes it; and the atlas shows each of its bitmaps intact.
   */
  method RenderAndDescribe(byArea: seq<Bitmap>, width: nat, height: nat)
    returns (bitmaps: seq<Bitmap>, manifest: string, atlas: array2<int>)
    requires Distinct(byArea) && Packed(byArea, width, height)
    ensures unchanged(byArea)
    ensures bitmaps == SortBy(byArea, CompareByName)
    ensures Distinct(bitmaps) && Packed(bitmaps, width, height)
    ensures forall i, j :: 0 <= i < j < |bitmaps| ==> bitmaps[i].name == bitmaps[j].name || Precedes(bitmaps[i].name, bitmaps[j].name)
    ensures Describes(manifest, |byArea|, width, height, bitmaps)
    ensures fresh(atlas) && atlas.Length0 == width && atlas.Length1 == height
    ensures ShowsIntact(atlas, bitmaps)
  {
    atlas := RenderAtlasTexture(width, height, byArea);
    bitmaps := SortBy(byArea, CompareByName);
    SortByNameAscending(byArea);
    PackedPermutation(byArea, bitmaps, width, height);
    manifest := WriteManifest(|byArea|, width, height, bitmaps);
    // Restated after the write so that the packing of the sorted list is at hand for what follows.
    PackedPermutation(byArea, bitmaps, width, height);
    AtlasShowsAll(atlas, byArea, bitmaps, width, height);
  }

  /**
   * The whole run for one atlas. When the sizing loop finds room within
   * `fuel` attempts: the atlas has power-of-two sides with the width equal
   * to or twice the height; the returned list holds every loaded bitmap,
   * in name order, each at a rectangle of its own size inside the atlas, no
   * two overlapping; the atlas shows each bitmap's pixels intact at its
   * flipped rectangle; and the manifest is the header and the list's
   * records, which read back as exactly that data when names are plain.
   */
  method Process(files: seq<(string, Image)>, fuel: nat)
    returns (fitted: bool, width: int, height: int, bitmaps: seq<Bitmap>, manifest: string, atlas: array2?<int>,
             loaded: seq<Bitmap>, byArea: seq<Bitmap>, ghost width0: nat, ghost height0: nat, ghost count: nat)
    requires forall i :: 0 <= i < |files| ==> BaseName(files[i].0).Some? && files[i].1.Valid()
    ensures |loaded| == |files|
    ensures forall i :: 0 <= i < |files| ==>
      loaded[i].Wf() && loaded[i].name == BaseName(files[i].0).value && loaded[i].image == files[i].1
    ensures byArea == SortBy(loaded, CompareByArea)
    ensures SizedBy(Sizes(byArea), SumAreas(byArea), fuel, fitted, width, height, width0, height0, count)
    ensures fitted ==>
      && |Attempt(Sizes(byArea), width, height).placed| == |byArea|
      && PlacedAt(byArea, Attempt(Sizes(byArea), width, height).placed, |byArea|)
      && bitmaps == SortBy(byArea, CompareByName)
    ensures fitted ==>
      && Shape(width, height)
      && |bitmaps| == |files| && Distinct(bitmaps) && Packed(bitmaps, width, height)
      && (forall i :: 0 <= i < |files| ==> Lists(bitmaps, BaseName(files[i].0).value, files[i].1))
      && (forall i, j :: 0 <= i < j < |bitmaps| ==> bitmaps[i].name == bitmaps[j].name || Precedes(bitmaps[i].name, bitmaps[j].name))
      && Describes(manifest, |files|, width, height, bitmaps)
      && atlas != null && atlas.Length0 == width && atlas.Length1 == height
      && ShowsIntact(atlas, bitmaps)
  {
    fitted, width, height, loaded, byArea, width0, height0, count := LoadAndPosition(files, fuel);
    if fitted {
      bitmaps, manifest, atlas := RenderAndDescribe(byArea, width, height);
      EveryFileListed(files, loaded, bitmaps);
    } else {
      bitmaps, manifest, atlas := [], "", null;
    }
  }
}

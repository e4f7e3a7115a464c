/**
 * A source image loaded from a file: its name, its pixels, its derived size
 * figures, and the one mutable field, the rectangle it was assigned on the atlas.
 */
module Bitmaps {
  import opened Wrappers
  import opened Text
  import opened Rectangles

  /** A decoded image: `pixels[y][x]` with y counted downwards from the top row. */
  datatype Image = Image(width: nat, height: nat, pixels: seq<seq<int>>) {
    predicate Valid() {
      |pixels| == height && forall y :: 0 <= y < |pixels| ==> |pixels[y]| == width
    }
  }

  /** The longest prefix of `s` that holds no '.'. */
  function UpToDot(s: string): (r: string)
    ensures r <= s && '.' !in r
    ensures |r| < |s| ==> s[|r|] == '.'
  {
    if s == [] || s[0] == '.' then [] else [s[0]] + UpToDot(s[1..])
  }

  predicate AllDots(s: string) {
    forall i :: 0 <= i < |s| ==> s[i] == '.'
  }

  /**
   * The first field when the file name is split at every '.', the way a
   * regular-expression split does it: trailing empty fields are dropped, so a
   * non-empty name made only of dots yields no field at all (None).
   */
  function BaseName(fileName: string): (r: Option<string>)
    ensures r.None? <==> |fileName| > 0 && AllDots(fileName)
    ensures r.Some? ==> '.' !in r.value && r.value <= fileName
    ensures r.Some? && |r.value| < |fileName| ==> fileName[|r.value|] == '.'
  {
    if |fileName| > 0 && AllDots(fileName) then None
    else Some(UpToDot(fileName))
  }

  /** The name of "stem.ext" is the stem, whatever the extension holds. */
  lemma BaseNameDropsExtension(stem: string, ext: string)
    requires |stem| > 0 && '.' !in stem
    ensures BaseName(stem + "." + ext) == Some(stem)
  {
    var s := stem + "." + ext;
    assert s[0] == stem[0] && s[0] != '.';
    assert s[|stem|] == '.';
    var r := BaseName(s).value;
    assert s[..|stem|] == stem;
    assert |r| == |stem| ==> r == stem;
  }

  /** One manifest record: the name and the four bounds, each followed by a space. */
  function DataLine(name: string, r: Rect): (line: string)
    ensures |line| > |name| && line[..|name|] == name && line[|name|] == ' ' && line[|line| - 1] == ' '
    ensures '\n' in line <==> '\n' in name
  {
    IntToStringHasNo(r.left, '\n');
    IntToStringHasNo(r.right, '\n');
    IntToStringHasNo(r.bottom, '\n');
    IntToStringHasNo(r.top, '\n');
    name + (" " + (IntToString(r.left) + (" " + (IntToString(r.right) + (" " +
      (IntToString(r.bottom) + (" " + (IntToString(r.top) + " "))))))))
  }

  /** The fields of a record as a space split sees them, the last one empty. */
  function DataFields(name: string, r: Rect): seq<string> {
    [name, IntToString(r.left), IntToString(r.right), IntToString(r.bottom), IntToString(r.top), ""]
  }

  lemma DataLineFields(name: string, r: Rect)
    requires ' ' !in name
    ensures Split(DataLine(name, r), ' ') == DataFields(name, r)
  {
    IntToStringHasNo(r.left, ' ');
    IntToStringHasNo(r.right, ' ');
    IntToStringHasNo(r.bottom, ' ');
    IntToStringHasNo(r.top, ' ');
    var t := IntToString(r.top) + " ";
    SplitWordThen(IntToString(r.top), ' ', "");
    assert IntToString(r.top) + ([' '] + "") == t;
    SplitSingle("", ' ');
    var b := IntToString(r.bottom) + (" " + t);
    SplitWordThen(IntToString(r.bottom), ' ', t);
    var rt := IntToString(r.right) + (" " + b);
    SplitWordThen(IntToString(r.right), ' ', b);
    var l := IntToString(r.left) + (" " + rt);
    SplitWordThen(IntToString(r.left), ' ', rt);
    SplitWordThen(name, ' ', l);
  }

  /** Reads one record back: a name and four integers, each followed by a space. */
  function ParseDataLine(line: string): Option<(string, Rect)> {
    var f := Split(line, ' ');
    if |f| != 6 || f[5] != "" then None
    else
      match (ParseInt(f[1]), ParseInt(f[2]), ParseInt(f[3]), ParseInt(f[4]))
      case (Some(l), Some(r), Some(b), Some(t)) => Some((f[0], Rect(l, r, b, t)))
      case _ => None
  }

  /** Every record reads back as the name and rectangle it was written from. */
  lemma DataLineRoundTrip(name: string, r: Rect)
    requires ' ' !in name
    ensures ParseDataLine(DataLine(name, r)) == Some((name, r))
  {
    DataLineFields(name, r);
    ParseIntToString(r.left);
    ParseIntToString(r.right);
    ParseIntToString(r.bottom);
    ParseIntToString(r.top);
  }

  /** Every bitmap has been given a position. */
  predicate AllPositioned(bitmaps: seq<Bitmap>)
    reads bitmaps
  {
    forall i :: 0 <= i < |bitmaps| ==> bitmaps[i].positionRect.Some?
  }

  class Bitmap {
    const name: string
    const image: Image
    const width: nat
    const height: nat
    const area: nat
    const perimeter: nat
    /** Where the bitmap goes on the atlas; None until a tree assigns it. */
    var positionRect: Option<Rect>

    /** The size figures agree with the image they were taken from. */
    predicate Wf() {
      && width == image.width && height == image.height
      && area == width * height && perimeter == width * 2 + height * 2
    }

    /** Loading: the image decoder is outside the model, so the decoded image is passed in. */
    constructor (fileName: string, image: Image)
      requires BaseName(fileName).Some?
      ensures Wf() && this.image == image && name == BaseName(fileName).value
      ensures positionRect.None?
    {
      name := BaseName(fileName).value;
      this.image := image;
      width := image.width;
      height := image.height;
      area := image.width * image.height;
      perimeter := image.width * 2 + image.height * 2;
      positionRect := None;
    }

    method GetPositionRect() returns (r: Option<Rect>)
      ensures r == positionRect
    {
      r := positionRect;
    }

    method SetPositionRect(r: Rect)
      modifies this`positionRect
      ensures positionRect == Some(r)
    {
      positionRect := Some(r);
    }

    /**
     * The bitmap's manifest record. It needs a position: without one the
     * record cannot be formed. A name without spaces reads back intact.
     */
    function ToDataString(): (s: string)
      reads this
      requires positionRect.Some?
      ensures ' ' !in name ==> Split(s, ' ') == DataFields(name, positionRect.value)
      ensures ' ' !in name ==> ParseDataLine(s) == Some((name, positionRect.value))
    {
      var line := DataLine(name, positionRect.value);
      if ' ' in name then line
      else
        DataLineFields(name, positionRect.value);
        DataLineRoundTrip(name, positionRect.value);
        line
    }
  }
}

/**
 * The texture-coordinates file: a header line "count width height", then
 * one record per bitmap, each line after the first preceded by a newline
 * and none followed by one.
 */
module Manifest {
  import opened Wrappers
  import opened Text
  import opened Rectangles
  import opened Bitmaps

  /** What a manifest says: the bitmap count, the atlas size and one (name, rectangle) entry per bitmap. */
  datatype ManifestData = ManifestData(count: int, width: int, height: int, entries: seq<(string, Rect)>)

  /** The first line: the bitmap count, the atlas width and its height, separated by single spaces. */
  function Header(count: int, width: int, height: int): (h: string)
    ensures '\n' !in h
  {
    IntToStringHasNo(count, '\n');
    IntToStringHasNo(width, '\n');
    IntToStringHasNo(height, '\n');
    IntToString(count) + (" " + (IntToString(width) + (" " + IntToString(height))))
  }

  /** The records of the entries, in order. */
  function Records(entries: seq<(string, Rect)>): (lines: seq<string>)
    ensures |lines| == |entries|
    ensures forall i :: 0 <= i < |entries| ==> lines[i] == DataLine(entries[i].0, entries[i].1)
  {
    seq(|entries|, i requires 0 <= i < |entries| => DataLine(entries[i].0, entries[i].1))
  }

  /** The whole file: the header and the records joined by newlines. */
  function ManifestText(m: ManifestData): string {
    Join([Header(m.count, m.width, m.height)] + Records(m.entries), '\n')
  }

  /** A name that the format can carry: it holds neither a space nor a newline. */
  predicate PlainName(name: string) {
    ' ' !in name && '\n' !in name
  }

  function ParseHeader(line: string): Option<(int, int, int)> {
    var f := Split(line, ' ');
    if |f| != 3 then None
    else
      match (ParseInt(f[0]), ParseInt(f[1]), ParseInt(f[2]))
      case (Some(c), Some(w), Some(h)) => Some((c, w, h))
      case _ => None
  }

  function ParseRecords(lines: seq<string>): Option<seq<(string, Rect)>> {
    if lines == [] then Some([])
    else
      match (ParseRecords(lines[..|lines| - 1]), ParseDataLine(lines[|lines| - 1]))
      case (Some(init), Some(e)) => Some(init + [e])
      case _ => None
  }

  /** Reads a manifest back. */
  function ParseManifest(text: string): Option<ManifestData> {
    var lines := Split(text, '\n');
    match (ParseHeader(lines[0]), ParseRecords(lines[1..]))
    case (Some((c, w, h)), Some(entries)) => Some(ManifestData(c, w, h, entries))
    case _ => None
  }

  /** The header splits at spaces into its three numbers. */
  lemma HeaderFields(count: int, width: int, height: int)
    ensures Split(Header(count, width, height), ' ') == [IntToString(count), IntToString(width), IntToString(height)]
  {
    IntToStringHasNo(count, ' ');
    IntToStringHasNo(width, ' ');
    IntToStringHasNo(height, ' ');
    var h := IntToString(height);
    var wh := IntToString(width) + (" " + h);
    SplitSingle(h, ' ');
    SplitWordThen(IntToString(width), ' ', h);
    SplitWordThen(IntToString(count), ' ', wh);
  }

  lemma HeaderRoundTrip(count: int, width: int, height: int)
    ensures ParseHeader(Header(count, width, height)) == Some((count, width, height))
  {
    HeaderFields(count, width, height);
    ParseIntToString(count);
    ParseIntToString(width);
    ParseIntToString(height);
  }

  /** Lines that each read back as an entry read back, together, as those entries. */
  lemma {:induction false} ParseRecordsAll(lines: seq<string>, entries: seq<(string, Rect)>)
    requires |lines| == |entries|
    requires forall i :: 0 <= i < |lines| ==> ParseDataLine(lines[i]) == Some(entries[i])
    ensures ParseRecords(lines) == Some(entries)
  {
    if lines != [] {
      var n := |lines| - 1;
      ParseRecordsAll(lines[..n], entries[..n]);
      assert entries[..n] + [entries[n]] == entries;
    }
  }

  lemma RecordsRoundTrip(entries: seq<(string, Rect)>)
    requires forall i :: 0 <= i < |entries| ==> PlainName(entries[i].0)
    ensures ParseRecords(Records(entries)) == Some(entries)
  {
    var lines := Records(entries);
    forall i | 0 <= i < |lines| ensures ParseDataLine(lines[i]) == Some(entries[i]) {
      DataLineRoundTrip(entries[i].0, entries[i].1);
    }
    ParseRecordsAll(lines, entries);
  }

  /**
   * A manifest whose names carry neither spaces nor newlines reads back as
   * exactly the count, size and entries it was written from.
   */
  lemma ManifestRoundTrip(m: ManifestData)
    requires forall i :: 0 <= i < |m.entries| ==> PlainName(m.entries[i].0)
    ensures ParseManifest(ManifestText(m)) == Some(m)
  {
    var parts := [Header(m.count, m.width, m.height)] + Records(m.entries);
    HeaderRoundTrip(m.count, m.width, m.height);
    forall i | 0 <= i < |parts| ensures '\n' !in parts[i] {
      if i > 0 {
        assert parts[i] == DataLine(m.entries[i - 1].0, m.entries[i - 1].1);
      }
    }
    SplitJoin(parts, '\n');
    assert parts[1..] == Records(m.entries);
    RecordsRoundTrip(m.entries);
  }

  /** The (name, rectangle) entries of positioned bitmaps, in list order. */
  function Entries(bitmaps: seq<Bitmap>): (e: seq<(string, Rect)>)
    reads bitmaps
    requires AllPositioned(bitmaps)
    ensures |e| == |bitmaps|
    ensures forall i :: 0 <= i < |e| ==> e[i] == (bitmaps[i].name, bitmaps[i].positionRect.value)
  {
    seq(|bitmaps|, i requires 0 <= i < |bitmaps| && bitmaps[i].positionRect.Some? reads bitmaps => (bitmaps[i].name, bitmaps[i].positionRect.value))
  }

  /** One more entry adds a newline and its record to the text. */
  lemma JoinRecordsSnoc(header: string, entries: seq<(string, Rect)>)
    requires |entries| > 0
    ensures var last := entries[|entries| - 1];
      Join([header] + Records(entries), '\n')
        == Join([header] + Records(entries[..|entries| - 1]), '\n') + "\n" + DataLine(last.0, last.1)
  {
    var parts := [header] + Records(entries);
    assert parts[..|parts| - 1] == [header] + Records(entries[..|entries| - 1]);
  }

  /** One more bitmap adds a newline and its record to the text. */
  lemma ManifestStep(header: string, bitmaps: seq<Bitmap>, i: nat)
    requires AllPositioned(bitmaps) && i < |bitmaps|
    ensures Join([header] + Records(Entries(bitmaps[..i + 1])), '\n')
      == Join([header] + Records(Entries(bitmaps[..i])), '\n') + "\n" + DataLine(bitmaps[i].name, bitmaps[i].positionRect.value)
  {
    var e := Entries(bitmaps[..i + 1]);
    assert e[..i] == Entries(bitmaps[..i]);
    JoinRecordsSnoc(header, e);
  }

  /**
   * Writes the file: the header, then for each bitmap a newline followed by
   * its record. The text is the manifest of the bitmaps' names and rectangles,
   * so it reads back as them when the names are plain.
   */
  method WriteManifest(count: int, width: int, height: int, bitmaps: seq<Bitmap>) returns (text: string)
    requires AllPositioned(bitmaps)
    ensures text == ManifestText(ManifestData(count, width, height, Entries(bitmaps)))
    ensures (forall i :: 0 <= i < |bitmaps| ==> PlainName(bitmaps[i].name)) ==>
      ParseManifest(text) == Some(ManifestData(count, width, height, Entries(bitmaps)))
  {
    ghost var header := Header(count, width, height);
    text := IntToString(count) + " " + IntToString(width) + " " + IntToString(height);
    assert text == header;
    for i := 0 to |bitmaps|
      invariant text == Join([header] + Records(Entries(bitmaps[..i])), '\n')
    {
      ManifestStep(header, bitmaps, i);
      text := text + "\n" + bitmaps[i].ToDataString();
    }
    assert bitmaps[..|bitmaps|] == bitmaps;
    if forall i :: 0 <= i < |bitmaps| ==> PlainName(bitmaps[i].name) {
      ManifestRoundTrip(ManifestData(count, width, height, Entries(bitmaps)));
    }
  }
}

/**
 * The two orders the program sorts bitmaps by: larger area first for
 * packing, and ascending name for the manifest.
 */
module Comparators {
  import opened Bitmaps
  import opened Sorting

  /** Java's 32-bit int range. */
  predicate IsInt32(x: int) {
    -0x8000_0000 <= x < 0x8000_0000
  }

  /**
   * Area descending: negative exactly when the first bitmap is the larger, zero
   * exactly on equal areas; for non-negative int areas the difference stays
   * in int range, so the subtraction does not wrap.
   */
  function CompareByArea(b1: Bitmap, b2: Bitmap): (c: int)
    ensures c < 0 <==> b1.area > b2.area
    ensures c == 0 <==> b1.area == b2.area
    ensures IsInt32(b1.area) && IsInt32(b2.area) ==> IsInt32(c)
  {
    b2.area - b1.area
  }

  lemma CompareByAreaAntisymmetric(b1: Bitmap, b2: Bitmap)
    ensures CompareByArea(b1, b2) == -CompareByArea(b2, b1)
  {
  }

  /** The area order meets the comparator contract on any list of bitmaps. */
  lemma CompareByAreaIsComparator(s: seq<Bitmap>)
    ensures IsComparatorOn(s, CompareByArea)
  {
  }

  /** Sorting by area gives a permutation whose areas never increase along the list. */
  lemma SortByAreaNonIncreasing(s: seq<Bitmap>)
    ensures var r := SortBy(s, CompareByArea);
      multiset(r) == multiset(s) && forall i, j :: 0 <= i < j < |r| ==> r[i].area >= r[j].area
  {
    CompareByAreaIsComparator(s);
    SortBySorted(s, CompareByArea);
  }

  /**
   * Java's String.compareTo over code units: the difference of the first
   * differing characters, or else the difference of the lengths.
   */
  function CompareStrings(a: string, b: string): (c: int)
    ensures c == 0 <==> a == b
    decreases |a|
  {
    if a == [] || b == [] then |a| - |b|
    else if a[0] != b[0] then a[0] as int - b[0] as int
    else
      var c := CompareStrings(a[1..], b[1..]);
      assert a == [a[0]] + a[1..] && b == [b[0]] + b[1..];
      c
  }

  /** Lexicographic order, stated independently: a smaller code unit at the first difference, or a proper prefix. */
  predicate Precedes(a: string, b: string) {
    || (exists k :: 0 <= k < |a| && k < |b| && a[..k] == b[..k] && a[k] < b[k])
    || (|a| < |b| && a == b[..|a|])
  }

  /** A common first character can be dropped from both strings: the first direction. */
  lemma PrecedesDropHead(a: string, b: string)
    requires a != [] && b != [] && a[0] == b[0] && Precedes(a, b)
    ensures Precedes(a[1..], b[1..])
  {
    if exists k :: 0 <= k < |a| && k < |b| && a[..k] == b[..k] && a[k] < b[k] {
      var k :| 0 <= k < |a| && k < |b| && a[..k] == b[..k] && a[k] < b[k];
      assert k > 0;
      assert a[1..][..k - 1] == a[1..k] && b[1..][..k - 1] == b[1..k];
      assert a[1..k] == a[..k][1..];
      assert b[1..k] == b[..k][1..];
      assert a[1..][k - 1] < b[1..][k - 1];
    } else {
      assert a[1..] == b[1..][..|a| - 1];
    }
  }

  /** A common first character can be dropped from both strings: the second direction. */
  lemma PrecedesAddHead(a: string, b: string)
    requires a != [] && b != [] && a[0] == b[0] && Precedes(a[1..], b[1..])
    ensures Precedes(a, b)
  {
    if exists k :: 0 <= k < |a| - 1 && k < |b| - 1 && a[1..][..k] == b[1..][..k] && a[1..][k] < b[1..][k] {
      var k :| 0 <= k < |a| - 1 && k < |b| - 1 && a[1..][..k] == b[1..][..k] && a[1..][k] < b[1..][k];
      assert a[..k + 1] == [a[0]] + a[1..][..k];
      assert b[..k + 1] == [b[0]] + b[1..][..k];
      assert a[k + 1] < b[k + 1];
    } else {
      assert a == [a[0]] + a[1..] && b[..|a|] == [b[0]] + b[1..][..|a| - 1];
    }
  }

  lemma PrecedesTail(a: string, b: string)
    requires a != [] && b != [] && a[0] == b[0]
    ensures Precedes(a, b) <==> Precedes(a[1..], b[1..])
  {
    if Precedes(a, b) {
      PrecedesDropHead(a, b);
    }
    if Precedes(a[1..], b[1..]) {
      PrecedesAddHead(a, b);
    }
  }

  /** compareTo is negative exactly when the first string precedes the second. */
  lemma {:induction false} CompareStringsPrecedes(a: string, b: string)
    ensures CompareStrings(a, b) < 0 <==> Precedes(a, b)
    decreases |a|
  {
    if a == [] || b == [] {
      if a != [] {
        assert !Precedes(a, b);
      }
    } else if a[0] != b[0] {
      if a[0] < b[0] {
        assert a[..0] == b[..0];
      }
    } else {
      CompareStringsPrecedes(a[1..], b[1..]);
      PrecedesTail(a, b);
    }
  }

  /** Swapping the arguments negates compareTo. */
  lemma {:induction false} CompareStringsAntisymmetric(a: string, b: string)
    ensures CompareStrings(a, b) == -CompareStrings(b, a)
    decreases |a|
  {
    if a != [] && b != [] && a[0] == b[0] {
      CompareStringsAntisymmetric(a[1..], b[1..]);
    }
  }

  /** "Not after" in compareTo's order is transitive. */
  lemma {:induction false} CompareStringsTransitive(a: string, b: string, c: string)
    requires CompareStrings(a, b) <= 0 && CompareStrings(b, c) <= 0
    ensures CompareStrings(a, c) <= 0
    decreases |a|
  {
    if a != [] && b != [] && c != [] && a[0] == b[0] && b[0] == c[0] {
      CompareStringsTransitive(a[1..], b[1..], c[1..]);
    }
  }

  /** A proper prefix sorts before every longer name that extends it. */
  lemma PrefixFirst(a: string, b: string)
    requires |a| < |b| && a == b[..|a|]
    ensures CompareStrings(a, b) < 0
  {
    CompareStringsPrecedes(a, b);
  }

  /** Name ascending: String.compareTo on the two names. */
  function CompareByName(b1: Bitmap, b2: Bitmap): (c: int)
    ensures c < 0 <==> Precedes(b1.name, b2.name)
    ensures c == 0 <==> b1.name == b2.name
  {
    CompareStringsPrecedes(b1.name, b2.name);
    CompareStrings(b1.name, b2.name)
  }

  lemma CompareByNameIsComparator(s: seq<Bitmap>)
    ensures IsComparatorOn(s, CompareByName)
  {
    forall a, b | a in s && b in s ensures Sign(CompareByName(a, b)) == -Sign(CompareByName(b, a)) {
      CompareStringsAntisymmetric(a.name, b.name);
    }
    forall a, b, c | a in s && b in s && c in s && CompareByName(a, b) <= 0 && CompareByName(b, c) <= 0
      ensures CompareByName(a, c) <= 0
    {
      CompareStringsTransitive(a.name, b.name, c.name);
    }
  }

  /** Sorting by name gives a permutation in which every name is equal to or precedes each later one. */
  lemma SortByNameAscending(s: seq<Bitmap>)
    ensures var r := SortBy(s, CompareByName);
      && multiset(r) == multiset(s)
      && forall i, j :: 0 <= i < j < |r| ==> r[i].name == r[j].name || Precedes(r[i].name, r[j].name)
  {
    CompareByNameIsComparator(s);
    SortBySorted(s, CompareByName);
    var r := SortBy(s, CompareByName);
    assert forall i, j :: 0 <= i < j < |r| ==> CompareByName(r[i], r[j]) <= 0;
  }
}

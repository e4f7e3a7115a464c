/**
 * The list sort the program calls with a comparator. The library's own
 * algorithm is not part of the program, so it stands here as an insertion
 * sort with the same outcome: a permutation ordered by the comparator.
 */
module Sorting {
  function Sign(x: int): int {
    if x < 0 then -1 else if x == 0 then 0 else 1
  }

  /** Swapping the arguments flips the sign of the comparison, on the elements of `s`. */
  ghost predicate Antisymmetric<T>(s: seq<T>, cmp: (T, T) -> int) {
    forall a, b :: a in s && b in s ==> Sign(cmp(a, b)) == -Sign(cmp(b, a))
  }

  /** "Not after" is transitive, on the elements of `s`. */
  ghost predicate Transitive<T>(s: seq<T>, cmp: (T, T) -> int) {
    forall a, b, c :: a in s && b in s && c in s && cmp(a, b) <= 0 && cmp(b, c) <= 0 ==> cmp(a, c) <= 0
  }

  /** The comparator contract the sort relies on. */
  ghost predicate IsComparatorOn<T>(s: seq<T>, cmp: (T, T) -> int) {
    Antisymmetric(s, cmp) && Transitive(s, cmp)
  }

  /** Each element is not after its successor. */
  ghost predicate Chained<T>(s: seq<T>, cmp: (T, T) -> int) {
    forall i :: 0 < i < |s| ==> cmp(s[i - 1], s[i]) <= 0
  }

  /** No element is ordered after a later one. */
  ghost predicate SortedBy<T>(s: seq<T>, cmp: (T, T) -> int) {
    forall i, j :: 0 <= i < j < |s| ==> cmp(s[i], s[j]) <= 0
  }

  /** Puts x in front of the first element that it is ordered before. */
  function InsertBy<T>(s: seq<T>, x: T, cmp: (T, T) -> int): (r: seq<T>)
    ensures multiset(r) == multiset(s) + multiset{x}
    ensures |r| == |s| + 1 && (r[0] == x || (s != [] && r[0] == s[0]))
  {
    if s == [] then [x]
    else if cmp(s[0], x) > 0 then [x] + s
    else
      assert s == [s[0]] + s[1..];
      [s[0]] + InsertBy(s[1..], x, cmp)
  }

  function SortBy<T>(s: seq<T>, cmp: (T, T) -> int): (r: seq<T>)
    ensures multiset(r) == multiset(s) && |r| == |s|
  {
    if s == [] then []
    else
      assert s == s[..|s| - 1] + [s[|s| - 1]];
      InsertBy(SortBy(s[..|s| - 1], cmp), s[|s| - 1], cmp)
  }

  lemma {:induction false} InsertByChained<T>(s: seq<T>, x: T, cmp: (T, T) -> int)
    requires Antisymmetric(s + [x], cmp) && Chained(s, cmp)
    ensures Chained(InsertBy(s, x, cmp), cmp)
  {
    if s != [] {
      if cmp(s[0], x) > 0 {
        assert s[0] in s + [x] && x in s + [x];
        assert Sign(cmp(s[0], x)) == -Sign(cmp(x, s[0]));
      } else {
        assert forall a :: a in s[1..] + [x] ==> a in s + [x];
        InsertByChained(s[1..], x, cmp);
        var t := InsertBy(s[1..], x, cmp);
        assert InsertBy(s, x, cmp) == [s[0]] + t;
        if t[0] != x {
          assert cmp(s[0], s[1]) <= 0;
        }
      }
    }
  }

  lemma {:induction false} ChainedSorted<T>(s: seq<T>, cmp: (T, T) -> int)
    requires Transitive(s, cmp) && Chained(s, cmp)
    ensures SortedBy(s, cmp)
  {
    forall i, j | 0 <= i < j < |s| ensures cmp(s[i], s[j]) <= 0 {
      ChainedStep(s, cmp, i, j);
    }
  }

  lemma {:induction false} ChainedStep<T>(s: seq<T>, cmp: (T, T) -> int, i: nat, j: nat)
    requires Transitive(s, cmp) && Chained(s, cmp)
    requires i < j < |s|
    ensures cmp(s[i], s[j]) <= 0
    decreases j - i
  {
    if i + 1 < j {
      ChainedStep(s, cmp, i, j - 1);
      assert s[i] in s && s[j - 1] in s && s[j] in s;
    }
  }

  lemma {:induction false} SortByChained<T>(s: seq<T>, cmp: (T, T) -> int)
    requires Antisymmetric(s, cmp)
    ensures Chained(SortBy(s, cmp), cmp)
  {
    if s != [] {
      var init, x := s[..|s| - 1], s[|s| - 1];
      assert s == init + [x];
      assert forall a :: a in init ==> a in s;
      SortByChained(init, cmp);
      var t := SortBy(init, cmp);
      forall a | a in t + [x] ensures a in s {
        if a in t {
          assert a in multiset(init);
        }
      }
      InsertByChained(t, x, cmp);
    }
  }

  /** The sort's result is ordered by the comparator (and, by its contract, a permutation). */
  lemma SortBySorted<T>(s: seq<T>, cmp: (T, T) -> int)
    requires IsComparatorOn(s, cmp)
    ensures SortedBy(SortBy(s, cmp), cmp)
  {
    SortByChained(s, cmp);
    var r := SortBy(s, cmp);
    forall a | a in r ensures a in s {
      assert a in multiset(s);
    }
    ChainedSorted(r, cmp);
  }
}

/**
 * Decimal formatting of integers, as Java's string concatenation renders an
 * `int`, and the separator-based Split/Join pair used to state that the
 * texture-data text can be read back.
 */
module Text {
  import opened Wrappers

  predicate IsDigit(c: char) {
    '0' <= c <= '9'
  }

  function DigitChar(d: nat): (c: char)
    requires d < 10
    ensures IsDigit(c) && c as int - '0' as int == d
  {
    ('0' as int + d) as char
  }

  /** Decimal digits of `n`, most significant first, without leading zeros. */
  function NatToString(n: nat): (s: string)
    ensures |s| > 0 && forall i :: 0 <= i < |s| ==> IsDigit(s[i])
    ensures |s| > 1 ==> s[0] != '0'
    decreases n
  {
    if n < 10 then [DigitChar(n)] else NatToString(n / 10) + [DigitChar(n % 10)]
  }

  /** How Java renders an `int` in a string concatenation: an optional '-' and the digits. */
  function IntToString(n: int): (s: string)
    ensures |s| > 0
    ensures forall i :: 0 <= i < |s| ==> IsDigit(s[i]) || (i == 0 && s[i] == '-' && n < 0)
  {
    if n < 0 then "-" + NatToString(-n) else NatToString(n)
  }

  /** Value of a string of decimal digits, read most significant first. */
  function DigitsValue(s: string): (v: int)
    requires forall i :: 0 <= i < |s| ==> IsDigit(s[i])
    ensures v >= 0
  {
    if s == [] then 0
    else
      assert IsDigit(s[|s| - 1]);
      var d := s[|s| - 1] as int - '0' as int;
      DigitsValue(s[..|s| - 1]) * 10 + d
  }

  predicate AllDigits(s: string) {
    |s| > 0 && forall i :: 0 <= i < |s| ==> IsDigit(s[i])
  }

  /** Reads back an optionally signed decimal integer; None for anything else. */
  function ParseInt(s: string): Option<int> {
    if |s| > 0 && s[0] == '-' then
      if AllDigits(s[1..]) then Some(-DigitsValue(s[1..])) else None
    else if AllDigits(s) then Some(DigitsValue(s))
    else None
  }

  lemma {:induction false} DigitsValueOfNat(n: nat)
    ensures DigitsValue(NatToString(n)) == n
    decreases n
  {
    if n >= 10 {
      var s := NatToString(n);
      assert s[..|s| - 1] == NatToString(n / 10);
      DigitsValueOfNat(n / 10);
    }
  }

  /** Every rendered integer reads back as itself. */
  lemma ParseIntToString(n: int)
    ensures ParseInt(IntToString(n)) == Some(n)
  {
    if n < 0 {
      var s := IntToString(n);
      assert s[1..] == NatToString(-n);
      DigitsValueOfNat(-n);
    } else {
      DigitsValueOfNat(n);
    }
  }

  lemma IntToStringInjective(a: int, b: int)
    ensures IntToString(a) == IntToString(b) <==> a == b
  {
    ParseIntToString(a);
    ParseIntToString(b);
  }

  /** The parts joined, with `sep` between consecutive parts. */
  function Join(parts: seq<string>, sep: char): string
    requires |parts| > 0
  {
    if |parts| == 1 then parts[0]
    else Join(parts[..|parts| - 1], sep) + [sep] + parts[|parts| - 1]
  }

  /** The maximal runs of `s` between occurrences of `sep` (always at least one, possibly empty). */
  function Split(s: string, sep: char): (parts: seq<string>)
    ensures |parts| > 0
  {
    if s == [] then [[]]
    else if s[|s| - 1] == sep then Split(s[..|s| - 1], sep) + [[]]
    else
      var parts := Split(s[..|s| - 1], sep);
      parts[..|parts| - 1] + [parts[|parts| - 1] + [s[|s| - 1]]]
  }

  /** Split on a string extended by one character, as the definition reads it. */
  lemma SplitSnoc(s: string, z: char, sep: char)
    ensures Split(s + [z], sep) ==
      if z == sep then Split(s, sep) + [[]]
      else Split(s, sep)[..|Split(s, sep)| - 1] + [Split(s, sep)[|Split(s, sep)| - 1] + [z]]
  {
    assert (s + [z])[..|s|] == s;
  }

  lemma Combine(X: seq<string>, Q: seq<string>, z: char)
    requires |Q| > 0
    ensures (X + Q)[..|X + Q| - 1] + [(X + Q)[|X + Q| - 1] + [z]] == X + (Q[..|Q| - 1] + [Q[|Q| - 1] + [z]])
  {
  }

  lemma SplitConcatStep(a: string, c: string, z: char, sep: char)
    requires Split(a + [sep] + c, sep) == Split(a, sep) + Split(c, sep)
    ensures Split(a + [sep] + c + [z], sep) == Split(a, sep) + Split(c + [z], sep)
  {
    SplitSnoc(a + [sep] + c, z, sep);
    SplitSnoc(c, z, sep);
    if z != sep {
      Combine(Split(a, sep), Split(c, sep), z);
    }
  }

  /** Splitting at one separator splits the two sides independently. */
  lemma {:induction false} SplitConcat(a: string, b: string, sep: char)
    ensures Split(a + [sep] + b, sep) == Split(a, sep) + Split(b, sep)
    decreases |b|
  {
    if b == [] {
      SplitSnoc(a, sep, sep);
      assert a + [sep] + b == a + [sep];
    } else {
      var c, z := b[..|b| - 1], b[|b| - 1];
      SplitConcat(a, c, sep);
      SplitConcatStep(a, c, z, sep);
      assert a + [sep] + b == a + [sep] + c + [z];
      assert b == c + [z];
    }
  }

  lemma SplitAppend(s: string, sep: char, p: string)
    requires sep !in p
    ensures Split(s + [sep] + p, sep) == Split(s, sep) + [p]
  {
    SplitConcat(s, p, sep);
    SplitSingle(p, sep);
  }

  /** Splitting what Join produced gives the parts back, when no part holds the separator. */
  lemma {:induction false} SplitJoin(parts: seq<string>, sep: char)
    requires |parts| > 0
    requires forall i :: 0 <= i < |parts| ==> sep !in parts[i]
    ensures Split(Join(parts, sep), sep) == parts
    decreases |parts|
  {
    if |parts| == 1 {
      SplitAppend([], sep, parts[0]);
      SplitSingle(parts[0], sep);
    } else {
      var init := parts[..|parts| - 1];
      SplitJoin(init, sep);
      SplitAppend(Join(init, sep), sep, parts[|parts| - 1]);
      assert init + [parts[|parts| - 1]] == parts;
    }
  }

  lemma {:induction false} SplitSingle(p: string, sep: char)
    requires sep !in p
    ensures Split(p, sep) == [p]
    decreases |p|
  {
    if p != [] {
      var q := p[..|p| - 1];
      SplitSingle(q, sep);
      assert q + [p[|p| - 1]] == p;
    }
  }

  /** A separator-free word followed by the separator splits off as one part. */
  lemma SplitWordThen(word: string, sep: char, rest: string)
    requires sep !in word
    ensures Split(word + ([sep] + rest), sep) == [word] + Split(rest, sep)
  {
    assert word + ([sep] + rest) == word + [sep] + rest;
    SplitConcat(word, rest, sep);
    SplitSingle(word, sep);
  }

  lemma IntToStringHasNo(n: int, c: char)
    requires c != '-' && !IsDigit(c)
    ensures c !in IntToString(n)
  {
  }
}

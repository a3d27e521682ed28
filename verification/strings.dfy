/** The parts of .NET's string handling the core relies on: `Trim`, `IsNullOrWhiteSpace`
    and `StringComparer.OrdinalIgnoreCase`, plus the splitting on '.' that `Version.TryParse`
    does internally. */
module Strings {
  import opened Wrappers

  /** `char.IsWhiteSpace`: the Unicode space, line and paragraph separators, the control
      characters U+0009..U+000D, U+0085 and U+00A0. */
  predicate IsWhiteSpace(c: char) {
    || c == ' '
    || '\t' <= c <= '\r'
    || c == '\U{85}'
    || c == '\U{A0}'
    || c == '\U{1680}'
    || '\U{2000}' <= c <= '\U{200A}'
    || c == '\U{2028}'
    || c == '\U{2029}'
    || c == '\U{202F}'
    || c == '\U{205F}'
    || c == '\U{3000}'
  }

  predicate AllWhiteSpace(s: string) {
    forall i | 0 <= i < |s| :: IsWhiteSpace(s[i])
  }

  /** `string.IsNullOrWhiteSpace`: null, or nothing left once trimmed. */
  predicate IsNullOrWhiteSpace(s: Option<string>): (b: bool)
    ensures b <==> s.None? || Trim(s.value) == []
  {
    s.None? || AllWhiteSpace(s.value)
  }

  /** The first position at or after `i` that holds no whitespace, or the end. */
  function SkipWhiteSpace(s: string, i: nat): (j: nat)
    requires i <= |s|
    ensures i <= j <= |s|
    ensures forall k | i <= k < j :: IsWhiteSpace(s[k])
    ensures j == |s| || !IsWhiteSpace(s[j])
    decreases |s| - i
  {
    if i < |s| && IsWhiteSpace(s[i]) then SkipWhiteSpace(s, i + 1) else i
  }

  /** The position just after the last character before `j` that is no whitespace, or
      `lo` when all of `s[lo..j]` is whitespace. */
  function SkipWhiteSpaceBack(s: string, lo: nat, j: nat): (k: nat)
    requires lo <= j <= |s|
    ensures lo <= k <= j
    ensures forall m | k <= m < j :: IsWhiteSpace(s[m])
    ensures k == lo || !IsWhiteSpace(s[k - 1])
    decreases j
  {
    if j > lo && IsWhiteSpace(s[j - 1]) then SkipWhiteSpaceBack(s, lo, j - 1) else j
  }

  /** `r` is `s` with `lead` whitespace characters removed in front and all the trailing
      whitespace removed behind, and `r` neither starts nor ends with whitespace. */
  predicate TrimmedAt(r: string, s: string, lead: nat) {
    && lead + |r| <= |s|
    && r == s[lead..lead + |r|]
    && AllWhiteSpace(s[..lead])
    && AllWhiteSpace(s[lead + |r|..])
    && (r == [] || (!IsWhiteSpace(r[0]) && !IsWhiteSpace(r[|r| - 1])))
  }

  /** `r` is `s` with its leading and trailing whitespace, and only that, removed. */
  ghost predicate IsTrimOf(r: string, s: string) {
    exists lead: nat :: TrimmedAt(r, s, lead)
  }

  /** `string.Trim()`. */
  function Trim(s: string): (r: string)
    ensures r == [] <==> AllWhiteSpace(s)
    ensures |s| == 0 || (!IsWhiteSpace(s[0]) && !IsWhiteSpace(s[|s| - 1])) ==> r == s
  {
    var lead := SkipWhiteSpace(s, 0);
    s[lead..SkipWhiteSpaceBack(s, lead, |s|)]
  }

  /** `Trim` removes the leading and trailing whitespace and nothing else. */
  lemma TrimRemovesOnlyOuterWhiteSpace(s: string)
    ensures IsTrimOf(Trim(s), s)
  {
    var lead := SkipWhiteSpace(s, 0);
    var tail := SkipWhiteSpaceBack(s, lead, |s|);
    var r := Trim(s);
    assert r == s[lead..tail];
    assert r == [] || (!IsWhiteSpace(r[0]) && !IsWhiteSpace(r[|r| - 1])) by {
      if r != [] { assert r[0] == s[lead] && r[|r| - 1] == s[tail - 1]; }
    }
    assert TrimmedAt(r, s, lead);
  }

  /** Invariant upper-casing, restricted to the ASCII letters. */
  function ToUpperChar(c: char): char {
    if 'a' <= c <= 'z' then (c as int - 32) as char else c
  }

  function ToUpper(s: string): (r: string)
    ensures |r| == |s|
    ensures forall i | 0 <= i < |s| :: r[i] == ToUpperChar(s[i])
  {
    seq(|s|, i requires 0 <= i < |s| => ToUpperChar(s[i]))
  }

  /** Ordinal comparison: character by character, a proper prefix first. Characters are
      compared as Unicode scalar values, where .NET compares UTF-16 code units; the two orders
      differ only between a supplementary character and one in U+E000..U+FFFF. Only the sign
      of the result is part of the .NET contract, so the sign is all that is returned. */
  function CompareOrdinal(a: string, b: string): (r: int)
    ensures -1 <= r <= 1
    ensures r == 0 <==> a == b
  {
    if |a| == 0 then (if |b| == 0 then 0 else -1)
    else if |b| == 0 then 1
    else if a[0] < b[0] then -1
    else if a[0] > b[0] then 1
    else
      var r := CompareOrdinal(a[1..], b[1..]);
      assert a == [a[0]] + a[1..] && b == [b[0]] + b[1..];
      r
  }

  lemma {:induction false} CompareOrdinalAntisymmetric(a: string, b: string)
    ensures CompareOrdinal(a, b) == -CompareOrdinal(b, a)
  {
    if |a| > 0 && |b| > 0 && a[0] == b[0] {
      CompareOrdinalAntisymmetric(a[1..], b[1..]);
    }
  }

  lemma {:induction false} CompareOrdinalTransitive(a: string, b: string, c: string)
    requires CompareOrdinal(a, b) <= 0 && CompareOrdinal(b, c) <= 0
    ensures CompareOrdinal(a, c) <= 0
  {
    if |a| > 0 && |b| > 0 && |c| > 0 && a[0] == b[0] && b[0] == c[0] {
      CompareOrdinalTransitive(a[1..], b[1..], c[1..]);
    }
  }

  /** `StringComparer.OrdinalIgnoreCase.Compare`. */
  function CompareOrdinalIgnoreCase(a: string, b: string): (r: int)
    ensures -1 <= r <= 1
    ensures r == 0 <==> ToUpper(a) == ToUpper(b)
  {
    CompareOrdinal(ToUpper(a), ToUpper(b))
  }

  /** Inverse of `Split`: the parts glued back together with the separator between them. */
  function Join(parts: seq<string>, sep: char): string
    requires |parts| >= 1
  {
    if |parts| == 1 then parts[0] else parts[0] + [sep] + Join(parts[1..], sep)
  }

  /** How `Version.TryParse` cuts its text into components: the maximal separator-free runs
      of `s`, empty ones included. */
  function Split(s: string, sep: char): (parts: seq<string>)
    ensures |parts| >= 1
    ensures Join(parts, sep) == s
    ensures forall i | 0 <= i < |parts| :: sep !in parts[i]
  {
    if |s| == 0 then [[]]
    else if s[0] == sep then
      var rest := Split(s[1..], sep);
      assert ([[]] + rest)[1..] == rest;
      [[]] + rest
    else
      var rest := Split(s[1..], sep);
      var parts := [[s[0]] + rest[0]] + rest[1..];
      assert parts[1..] == rest[1..];
      assert s == [s[0]] + s[1..];
      parts
  }

  /** Splitting `head + sep + tail` with a separator-free head peels the head off. */
  lemma {:induction false} SplitCons(head: string, tail: string, sep: char)
    requires sep !in head
    ensures Split(head + [sep] + tail, sep) == [head] + Split(tail, sep)
  {
    if |head| == 0 {
      assert head + [sep] + tail == [sep] + tail;
      assert ([sep] + tail)[1..] == tail;
    } else {
      var s := head + [sep] + tail;
      assert s[1..] == head[1..] + [sep] + tail;
      SplitCons(head[1..], tail, sep);
      assert head == [head[0]] + head[1..];
    }
  }

  /** A separator-free string splits into itself alone. */
  lemma {:induction false} SplitAtom(s: string, sep: char)
    requires sep !in s
    ensures Split(s, sep) == [s]
  {
    if |s| > 0 {
      SplitAtom(s[1..], sep);
      assert s == [s[0]] + s[1..];
    }
  }

  /** Split undoes Join when no part holds the separator. */
  lemma {:induction false} SplitJoin(parts: seq<string>, sep: char)
    requires |parts| >= 1
    requires forall i | 0 <= i < |parts| :: sep !in parts[i]
    ensures Split(Join(parts, sep), sep) == parts
  {
    if |parts| == 1 {
      SplitAtom(parts[0], sep);
    } else {
      SplitJoin(parts[1..], sep);
      SplitCons(parts[0], Join(parts[1..], sep), sep);
      assert parts == [parts[0]] + parts[1..];
    }
  }
}

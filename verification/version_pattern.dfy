/** The regular expression
      ^(?<prefix>.*)(?<version>[0-9]{1,9}(?:\.[0-9]{1,9}){1,3})(?<suffix>.*)$
    that splits a package's version text into a prefix, a numeric version and a suffix.
    The `version` group is modelled as a language (`IsVersionText`) and the backtracking
    engine as a search in the order the engine tries its alternatives. */
module VersionPattern {
  import opened Wrappers
  import opened Strings
  import opened Decimal
  import Versions

  /** `[0-9]{1,9}`. */
  predicate IsComponent(t: string) {
    1 <= |t| <= 9 && AllDigits(t)
  }

  /** The language of the `version` group: two to four components joined by dots. */
  predicate IsVersionText(t: string) {
    var parts := Split(t, '.');
    2 <= |parts| <= 4 && forall i | 0 <= i < |parts| :: IsComponent(parts[i])
  }

  /** The text of `t` between positions `p` and `q` is a text of the `version` group. */
  predicate VersionAt(t: string, p: nat, q: nat)
    requires p <= q <= |t|
  {
    IsVersionText(t[p..q])
  }

  /** Some text of the `version` group starts at position `p` of `t`. */
  ghost predicate MatchesAt(t: string, p: nat) {
    p <= |t| && exists q | p <= q <= |t| :: VersionAt(t, p, q)
  }

  /** A digit, a dot and a digit at position `i`: the shortest text of the `version` group. */
  predicate DigitDotDigitAt(t: string, i: nat) {
    i + 3 <= |t| && IsDigit(t[i]) && t[i + 1] == '.' && IsDigit(t[i + 2])
  }

  datatype Span = Span(start: nat, end: nat)

  /** `u[p..q]` is the longest version text at `p`, and none starts to the right of `p`. */
  ghost predicate IsRightmostLongest(u: string, p: nat, q: nat) {
    && p <= q <= |u|
    && VersionAt(u, p, q)
    && (forall p' | p < p' <= |u| :: !MatchesAt(u, p'))
    && (forall q' | q < q' <= |u| :: !VersionAt(u, p, q'))
  }

  /** `u[p..q]` is the longest version text at `p`, and none starts to the left of `p`. */
  ghost predicate IsLeftmostLongest(u: string, p: nat, q: nat) {
    && p <= q <= |u|
    && VersionAt(u, p, q)
    && (forall p' | 0 <= p' < p :: !MatchesAt(u, p'))
    && (forall q' | q < q' <= |u| :: !VersionAt(u, p, q'))
  }

  /** The values of the three named groups. */
  datatype Groups = Groups(prefix: string, version: string, suffix: string)

  /** The text `$` can close: `$` matches at the end or just before a final line feed. */
  function Line(t: string): (u: string)
    ensures u == t || (u + "\n" == t)
  {
    if |t| > 0 && t[|t| - 1] == '\n' then t[..|t| - 1] else t
  }

  /** The longest text of the `version` group that starts at `p` and ends at or before `q`.
      The group's greedy quantifiers try longer texts first, and the `(?<suffix>.*)$` behind
      it accepts any rest without a line feed, so the first text the engine accepts is the
      longest one. */
  function LongestAt(t: string, p: nat, q: nat): (r: Option<nat>)
    requires p <= q <= |t|
    ensures r.Some? ==> p <= r.value <= q && VersionAt(t, p, r.value)
    decreases q - p
  {
    if VersionAt(t, p, q) then Some(q)
    else if q == p then None
    else LongestAt(t, p, q - 1)
  }

  /** No version text at `p` that ends at or before `q` is longer than the one `LongestAt`
      finds, and when it finds none there is none. */
  lemma {:induction false} LongestAtIsLongest(t: string, p: nat, q: nat)
    requires p <= q <= |t|
    ensures var r := LongestAt(t, p, q);
      forall q' | (if r.Some? then r.value < q' else p <= q') && q' <= q :: !VersionAt(t, p, q')
    decreases q - p
  {
    if !VersionAt(t, p, q) && q > p {
      LongestAtIsLongest(t, p, q - 1);
    }
  }

  /** Tries the start positions `p`, `p - 1`, ..., 0 in turn: the order in which the greedy
      `(?<prefix>.*)` hands characters back. */
  function RightmostFrom(t: string, p: nat): (m: Option<Span>)
    requires p <= |t|
    ensures m.Some? ==> m.value.start <= p && m.value.start <= m.value.end <= |t|
    ensures m.Some? ==> VersionAt(t, m.value.start, m.value.end)
    ensures m.Some? ==> forall q | m.value.end < q <= |t| :: !VersionAt(t, m.value.start, q)
    ensures forall p' | (if m.Some? then m.value.start < p' else 0 <= p') && p' <= p ::
      !MatchesAt(t, p')
    decreases p
  {
    LongestAtIsLongest(t, p, |t|);
    match LongestAt(t, p, |t|)
    case Some(q) => Some(Span(p, q))
    case None => if p == 0 then None else RightmostFrom(t, p - 1)
  }

  /** `VersionRegex().Match(t)`, positions relative to `Line(t)`. `.` does not match a line
      feed, so a line feed anywhere before the final position rules out a match; otherwise
      the match starts at the rightmost position where the version group can start, and
      the version text is the longest one there. */
  function Match(t: string): (m: Option<Span>)
    ensures m.Some? ==> '\n' !in Line(t)
    ensures m.Some? ==> IsRightmostLongest(Line(t), m.value.start, m.value.end)
    ensures m.None? ==> '\n' in Line(t) || forall p | 0 <= p <= |Line(t)| :: !MatchesAt(Line(t), p)
  {
    var u := Line(t);
    if '\n' in u then None else RightmostFrom(u, |u|)
  }

  /** The group values after `Match`; a failed match leaves all three empty. */
  function GroupsOf(t: string): (g: Groups)
    ensures Match(t).Some? ==> g.prefix + g.version + g.suffix == Line(t)
    ensures Match(t).Some? ==> IsVersionText(g.version)
    ensures Match(t).None? ==> g == Groups("", "", "")
  {
    match Match(t)
    case Some(span) =>
      var u := Line(t);
      assert u == u[..span.start] + u[span.start..span.end] + u[span.end..];
      Groups(u[..span.start], u[span.start..span.end], u[span.end..])
    case None => Groups("", "", "")
  }

  // ---------------------------------------------------------------------------------
  // What the greedy prefix does to the split

  /** The head of a split is the text before the first separator, and the rest of the
      split is the split of the text after it. */
  lemma SplitHead(s: string, sep: char)
    requires |Split(s, sep)| >= 2
    ensures var parts := Split(s, sep);
      && |parts[0]| < |s|
      && s == parts[0] + [sep] + s[|parts[0]| + 1..]
      && Split(s[|parts[0]| + 1..], sep) == parts[1..]
  {
    var parts := Split(s, sep);
    var rest := Join(parts[1..], sep);
    assert s == parts[0] + [sep] + rest;
    assert s[|parts[0]| + 1..] == rest;
    SplitJoin(parts[1..], sep);
  }

  /** Every digit-dot-digit is the start of a version text. */
  lemma DigitDotDigitMatches(t: string, i: nat)
    requires DigitDotDigitAt(t, i)
    ensures IsVersionText(t[i..i + 3])
    ensures MatchesAt(t, i)
  {
    var v := t[i..i + 3];
    assert v == [t[i]] + ['.'] + [t[i + 2]];
    assert !IsDigit('.');
    SplitCons([t[i]], [t[i + 2]], '.');
    SplitAtom([t[i + 2]], '.');
    assert Split(v, '.') == [[t[i]], [t[i + 2]]];
    assert VersionAt(t, i, i + 3);
  }

  /** A version text whose first component has more than one digit still matches one
      position further right. */
  lemma DropLeadingDigit(v: string)
    requires IsVersionText(v) && |Split(v, '.')[0]| >= 2
    ensures IsVersionText(v[1..])
  {
    var parts := Split(v, '.');
    assert v[0] == parts[0][0] by { SplitHead(v, '.'); }
    assert v[0] != '.';
    var rest := Split(v[1..], '.');
    assert parts == [[v[0]] + rest[0]] + rest[1..];
    assert rest[0] == parts[0][1..];
    assert rest == [parts[0][1..]] + parts[1..];
    forall i | 0 <= i < |rest| ensures IsComponent(rest[i]) {
      if i > 0 { assert rest[i] == parts[i]; }
    }
  }

  /** A version text of three or four components still matches from its second one. */
  lemma DropLeadingComponent(v: string)
    requires IsVersionText(v) && |Split(v, '.')| >= 3
    ensures IsVersionText(v[|Split(v, '.')[0]| + 1..])
  {
    var parts := Split(v, '.');
    SplitHead(v, '.');
    var rest := Split(v[|parts[0]| + 1..], '.');
    assert rest == parts[1..];
    forall i | 0 <= i < |rest| ensures IsComponent(rest[i]) {
      assert rest[i] == parts[i + 1];
    }
  }

  /** A version text at `p` is a witness that the `version` group can start at `p`. */
  lemma VersionTextStartsMatch(u: string, p: nat, q: nat)
    requires p <= q <= |u| && VersionAt(u, p, q)
    ensures MatchesAt(u, p)
  {
    assert VersionAt(u, p, q);
  }

  /** The rightmost version text starts with a single digit. */
  lemma RightmostHasOneDigitMajor(u: string, p: nat, q: nat)
    requires IsRightmostLongest(u, p, q)
    ensures |Split(u[p..q], '.')[0]| == 1
  {
    var v := u[p..q];
    if |Split(v, '.')[0]| >= 2 {
      DropLeadingDigit(v);
      assert v[1..] == u[p + 1..q];
      VersionTextStartsMatch(u, p + 1, q);
      assert false;
    }
  }

  /** The rightmost version text has exactly two components. */
  lemma RightmostHasTwoComponents(u: string, p: nat, q: nat)
    requires IsRightmostLongest(u, p, q)
    ensures |Split(u[p..q], '.')| == 2
  {
    var v := u[p..q];
    RightmostHasOneDigitMajor(u, p, q);
    if |Split(v, '.')| >= 3 {
      DropLeadingComponent(v);
      assert v[2..] == u[p + 2..q];
      VersionTextStartsMatch(u, p + 2, q);
      assert false;
    }
  }

  /** So the rightmost version text is a digit, a dot and a run of digits. */
  lemma RightmostIsDigitDotRun(u: string, p: nat, q: nat)
    requires IsRightmostLongest(u, p, q)
    ensures DigitDotDigitAt(u, p)
    ensures 1 <= q - (p + 2) <= 9 && AllDigits(u[p + 2..q])
  {
    var v := u[p..q];
    var parts := Split(v, '.');
    RightmostHasTwoComponents(u, p, q);
    RightmostHasOneDigitMajor(u, p, q);
    SplitHead(v, '.');
    var after := v[2..];
    assert Split(after, '.') == [parts[1]];
    assert after == parts[1];
    assert after == u[p + 2..q];
    assert v[0] == parts[0][0];
  }

  /** A digit, a dot and a run of one to nine digits is a version text. */
  lemma DigitDotRunIsVersionText(v: string)
    requires 3 <= |v| <= 11 && IsDigit(v[0]) && v[1] == '.' && AllDigits(v[2..])
    ensures IsVersionText(v)
  {
    assert v == [v[0]] + ['.'] + v[2..];
    assert !IsDigit('.');
    assert '.' !in v[2..];
    SplitCons([v[0]], v[2..], '.');
    SplitAtom(v[2..], '.');
    assert Split(v, '.') == [[v[0]], v[2..]];
  }

  /** The shape every match has: the greedy prefix leaves a single digit, a dot and one run
      of at most nine digits, beginning at the rightmost digit-dot-digit of the text; the
      run is cut only where the digits end or where nine of them have been taken. */
  lemma MatchShape(t: string)
    requires Match(t).Some?
    ensures var u, p, q := Line(t), Match(t).value.start, Match(t).value.end;
      && DigitDotDigitAt(u, p)
      && 1 <= q - (p + 2) <= 9
      && AllDigits(u[p + 2..q])
      && (q == |u| || !IsDigit(u[q]) || q - (p + 2) == 9)
      && forall i | p < i < |u| :: !DigitDotDigitAt(u, i)
  {
    var u, p, q := Line(t), Match(t).value.start, Match(t).value.end;
    RightmostIsDigitDotRun(u, p, q);
    forall i | p < i < |u| ensures !DigitDotDigitAt(u, i) {
      if DigitDotDigitAt(u, i) {
        DigitDotDigitMatches(u, i);
        assert false;
      }
    }
    if q < |u| && IsDigit(u[q]) && q - (p + 2) < 9 {
      assert u[p..q + 1][2..] == u[p + 2..q + 1];
      assert AllDigits(u[p + 2..q + 1]) by {
        assert u[p + 2..q + 1] == u[p + 2..q] + [u[q]];
        DigitsConcat(u[p + 2..q], [u[q]]);
      }
      DigitDotRunIsVersionText(u[p..q + 1]);
      assert VersionAt(u, p, q + 1);
      assert false;
    }
  }

  /** The converse of `MatchShape`: a digit-dot-digit with none to its right, followed by a
      run of digits cut where the digits end or after nine of them, is the match. */
  lemma MatchAtRightmostDigitDotDigit(t: string, p: nat, q: nat)
    requires '\n' !in Line(t)
    requires DigitDotDigitAt(Line(t), p)
    requires forall i | p < i < |Line(t)| :: !DigitDotDigitAt(Line(t), i)
    requires p + 3 <= q <= |Line(t)| && q - (p + 2) <= 9 && AllDigits(Line(t)[p + 2..q])
    requires q == |Line(t)| || !IsDigit(Line(t)[q]) || q - (p + 2) == 9
    ensures Match(t) == Some(Span(p, q))
  {
    var u := Line(t);
    DigitDotDigitMatches(u, p);
    MatchIffDigitDotDigit(t);
    MatchShape(t);
    var span := Match(t).value;
    assert span.start == p;
    assert forall j | p + 2 <= j < q :: IsDigit(u[j]) by {
      forall j | p + 2 <= j < q ensures IsDigit(u[j]) {
        assert u[j] == u[p + 2..q][j - (p + 2)];
      }
    }
    assert forall j | p + 2 <= j < span.end :: IsDigit(u[j]) by {
      forall j | p + 2 <= j < span.end ensures IsDigit(u[j]) {
        assert u[j] == u[p + 2..span.end][j - (p + 2)];
      }
    }
    if span.end != q {
      assert false;
    }
  }

  /** With no line feed in the way, the pattern matches exactly when the text contains a
      digit, a dot and a digit in a row. */
  lemma MatchIffDigitDotDigit(t: string)
    requires '\n' !in Line(t)
    ensures Match(t).Some? <==> exists i :: DigitDotDigitAt(Line(t), i)
  {
    var u := Line(t);
    if Match(t).Some? {
      MatchShape(t);
      assert DigitDotDigitAt(u, Match(t).value.start);
    } else {
      forall i | DigitDotDigitAt(u, i) ensures false {
        DigitDotDigitMatches(u, i);
      }
    }
  }

  /** The text the `version` group captures always parses: components of at most nine
      digits fit in an `int`, so the `new Version()` fallback is never taken. */
  lemma VersionTextParses(v: string)
    requires IsVersionText(v)
    ensures Versions.TryParse(v).Some?
  {
    var parts := Split(v, '.');
    forall i | 0 <= i < |parts| ensures Versions.IsInt32Numeral(parts[i]) {
      NineDigitsFitInt32(parts[i]);
    }
  }

  // ---------------------------------------------------------------------------------
  // The split the group names promise: a lazy prefix `(?<prefix>.*?)`

  /** Tries the start positions `p`, `p + 1`, ..., `|t|` in turn: the order a lazy prefix
      takes characters. */
  function LeftmostFrom(t: string, p: nat): (m: Option<Span>)
    requires p <= |t|
    ensures m.Some? ==> p <= m.value.start <= m.value.end <= |t|
    ensures m.Some? ==> VersionAt(t, m.value.start, m.value.end)
    ensures m.Some? ==> forall q | m.value.end < q <= |t| :: !VersionAt(t, m.value.start, q)
    ensures forall p' | p <= p' && (if m.Some? then p' < m.value.start else p' <= |t|) ::
      !MatchesAt(t, p')
    decreases |t| - p
  {
    LongestAtIsLongest(t, p, |t|);
    match LongestAt(t, p, |t|)
    case Some(q) => Some(Span(p, q))
    case None => if p == |t| then None else LeftmostFrom(t, p + 1)
  }

  /** The match with `(?<prefix>.*?)` in place of `(?<prefix>.*)`: the version starts at the
      leftmost position where it can, and is again the longest text there. */
  function MatchLazy(t: string): (m: Option<Span>)
    ensures m.Some? ==> '\n' !in Line(t)
    ensures m.Some? ==> IsLeftmostLongest(Line(t), m.value.start, m.value.end)
    ensures m.None? ==> '\n' in Line(t) || forall p | 0 <= p <= |Line(t)| :: !MatchesAt(Line(t), p)
  {
    var u := Line(t);
    if '\n' in u then None else LeftmostFrom(u, 0)
  }

  /** The group values after `MatchLazy`. */
  function GroupsOfLazy(t: string): (g: Groups)
    ensures MatchLazy(t).Some? ==> g.prefix + g.version + g.suffix == Line(t)
    ensures MatchLazy(t).Some? ==> IsVersionText(g.version)
    ensures MatchLazy(t).None? ==> g == Groups("", "", "")
  {
    match MatchLazy(t)
    case Some(span) =>
      var u := Line(t);
      assert u == u[..span.start] + u[span.start..span.end] + u[span.end..];
      Groups(u[..span.start], u[span.start..span.end], u[span.end..])
    case None => Groups("", "", "")
  }

  /** A version text holds nothing but digits and dots. */
  lemma VersionTextChars(v: string)
    requires IsVersionText(v)
    ensures forall i | 0 <= i < |v| :: IsDigit(v[i]) || v[i] == '.'
  {
    var parts := Split(v, '.');
    forall i | 0 <= i < |v| ensures IsDigit(v[i]) || v[i] == '.' {
      if v[i] != '.' {
        AnyCharInSomePart(v, i);
        var k :| 0 <= k < |parts| && v[i] in parts[k];
        var j :| 0 <= j < |parts[k]| && parts[k][j] == v[i];
      }
    }
  }

  /** A version text starts with a digit. */
  lemma VersionTextStartsWithDigit(v: string)
    requires IsVersionText(v)
    ensures |v| > 0 && IsDigit(v[0])
  {
    var parts := Split(v, '.');
    SplitHead(v, '.');
    assert v[0] == parts[0][0];
  }

  /** The lazy match of a version text that has no digit before it and neither a digit nor
      a dot right after it. */
  lemma MatchLazyAt(t: string, p: nat, q: nat)
    requires '\n' !in Line(t)
    requires p <= q <= |Line(t)| && VersionAt(Line(t), p, q)
    requires forall i | 0 <= i < p :: !IsDigit(Line(t)[i])
    requires q == |Line(t)| || (!IsDigit(Line(t)[q]) && Line(t)[q] != '.')
    ensures MatchLazy(t) == Some(Span(p, q))
  {
    var u := Line(t);
    assert MatchesAt(u, p) by { assert VersionAt(u, p, q); }
    var span := MatchLazy(t).value;
    assert VersionAt(u, span.start, span.end);
    var w := u[span.start..span.end];
    VersionTextStartsWithDigit(w);
    assert w[0] == u[span.start];
    assert span.start == p;
    VersionTextChars(w);
    assert forall j | 0 <= j < |w| :: w[j] == u[p + j];
    if span.end > q {
      assert false;
    }
  }

  /** A text that is a version text as a whole is captured whole by the lazy prefix. */
  lemma LazyCapturesWholeVersionText(v: string)
    requires IsVersionText(v)
    ensures GroupsOfLazy(v) == Groups("", v, "")
  {
    VersionTextChars(v);
    assert !IsDigit('\n');
    assert '\n' !in v;
    assert Line(v) == v;
    assert v[0..|v|] == v;
    assert MatchesAt(v, 0) by { assert VersionAt(v, 0, |v|); }
  }

  /** Every non-separator character of a string lies in one of its split parts. */
  lemma {:induction false} AnyCharInSomePart(s: string, i: nat)
    requires i < |s| && s[i] != '.'
    ensures exists k | 0 <= k < |Split(s, '.')| :: s[i] in Split(s, '.')[k]
  {
    var parts := Split(s, '.');
    if s[0] == '.' {
      AnyCharInSomePart(s[1..], i - 1);
      var k :| 0 <= k < |Split(s[1..], '.')| && s[1..][i - 1] in Split(s[1..], '.')[k];
      assert parts[k + 1] == Split(s[1..], '.')[k];
    } else if i == 0 {
      assert s[0] == parts[0][0];
    } else {
      AnyCharInSomePart(s[1..], i - 1);
      var rest := Split(s[1..], '.');
      var k :| 0 <= k < |rest| && s[1..][i - 1] in rest[k];
      if k == 0 {
        assert parts[0] == [s[0]] + rest[0];
      } else {
        assert parts[k] == rest[k];
      }
    }
  }
}

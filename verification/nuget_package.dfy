/** `NugetPackage`: a package identity of a name and a version, with the text found before
    and after the numeric version when the version was given as free text. */
module Nuget {
  import opened Wrappers
  import opened Exceptions
  import opened Strings
  import opened Decimal
  import opened Versions
  import opened VersionPattern

  datatype NugetPackage = NugetPackage(
    name: string,
    version: Version,
    versionPrefix: string,
    versionSuffix: string)

  /** `new NugetPackage(name, version)` with the version as free text: the name is trimmed;
      a missing or blank version gives `new Version()`; otherwise the trimmed text is split
      by the version pattern and the `version` group is parsed. */
  function Create(name: Option<string>, version: Option<string>): (r: Result<NugetPackage, Exception>)
    ensures r.Failure? <==> name.None?
    ensures r.Failure? ==> r.error == ArgumentNull("name")
    ensures r.Success? ==> r.value.name == Trim(name.value) && r.value.version.Valid()
  {
    if name.None? then
      Failure(ArgumentNull("name"))
    else if IsNullOrWhiteSpace(version) then
      Success(NugetPackage(Trim(name.value), Zero, "", ""))
    else
      var groups := GroupsOf(Trim(version.value));
      Success(NugetPackage(Trim(name.value), ParseOrZero(groups.version), groups.prefix, groups.suffix))
  }

  /** `new NugetPackage(name, version)` with an already structured version. This overload
      is declared in another part of the partial class, outside NugetPackage.cs; its body is
      not modelled, so the model assumes it trims the name as the text overload does and
      leaves prefix and suffix at their "" initialisers. Among packages with no version
      text around the version, equality then comes down to the hash key. */
  function FromVersion(name: string, version: Version): (p: NugetPackage)
    ensures p.version == version && p.versionPrefix == "" && p.versionSuffix == ""
    ensures p.name == Trim(name)
    ensures forall q: NugetPackage | q.versionPrefix == "" && q.versionSuffix == "" ::
      Equals(p, Some(q)) <==> HashKey(q) == HashKey(p)
  {
    NugetPackage(Trim(name), version, "", "")
  }

  /** A trimmed text never ends in a line feed, so `$` has only the end to match at. */
  lemma LineOfTrimmed(s: string)
    ensures Line(Trim(s)) == Trim(s)
  {
    assert IsWhiteSpace('\n');
  }

  /** A version text that is not blank goes through the pattern's groups. */
  lemma CreateFromGroups(name: string, text: string)
    requires !AllWhiteSpace(text)
    ensures var g := GroupsOf(Trim(text));
      Create(Some(name), Some(text))
        == Success(NugetPackage(Trim(name), ParseOrZero(g.version), g.prefix, g.suffix))
  {
  }

  // ---------------------------------------------------------------------------------
  // The split of the version text

  /** A blank or missing version text gives 0.0 with empty prefix and suffix. */
  lemma CreateBlankVersion(name: string, version: Option<string>)
    requires IsNullOrWhiteSpace(version)
    ensures Create(Some(name), version).value.version == Zero
    ensures Create(Some(name), version).value.versionPrefix == ""
    ensures Create(Some(name), version).value.versionSuffix == ""
  {
  }

  /** When the pattern matches, the prefix, the matched version text and the suffix put back
      together give the trimmed text; the version text is the longest at the rightmost
      position a version can start, and it always parses. */
  lemma CreateSplitsTrimmedText(name: string, text: string)
    requires !AllWhiteSpace(text) && Match(Trim(text)).Some?
    ensures var p, t := Create(Some(name), Some(text)).value, Trim(text);
      && |p.versionPrefix| + |p.versionSuffix| <= |t|
      && var middle := t[|p.versionPrefix|..|t| - |p.versionSuffix|];
      && t == p.versionPrefix + middle + p.versionSuffix
      && IsRightmostLongest(t, |p.versionPrefix|, |t| - |p.versionSuffix|)
      && Versions.TryParse(middle) == Some(p.version)
  {
    var t := Trim(text);
    LineOfTrimmed(text);
    var span := Match(t).value;
    var g := GroupsOf(t);
    assert g == Groups(t[..span.start], t[span.start..span.end], t[span.end..]);
    VersionTextParses(g.version);
    assert t[|g.prefix|..|t| - |g.suffix|] == g.version;
  }

  /** With no digit-dot-digit in the trimmed text, or a line feed inside it, the pattern
      fails: 0.0 with empty prefix and suffix. */
  lemma CreateWithoutMatch(name: string, text: string)
    requires !AllWhiteSpace(text)
    requires '\n' in Trim(text) || forall i | 0 <= i < |Trim(text)| :: !DigitDotDigitAt(Trim(text), i)
    ensures Create(Some(name), Some(text)).value.version == Zero
    ensures Create(Some(name), Some(text)).value.versionPrefix == ""
    ensures Create(Some(name), Some(text)).value.versionSuffix == ""
  {
    var t := Trim(text);
    LineOfTrimmed(text);
    if '\n' !in t {
      MatchIffDigitDotDigit(t);
    }
    assert GroupsOf(t) == Groups("", "", "");
    CreateFromGroups(name, text);
    ParseOrZeroEmpty();
  }

  /** A digit, a dot and a run of digits parses as a two-component version. */
  lemma DigitDotRunParses(v: string)
    requires 3 <= |v| <= 11 && IsDigit(v[0]) && v[1] == '.' && AllDigits(v[2..])
    ensures Versions.TryParse(v) == Some(Version(DigitValue(v[0]), Value(v[2..]), -1, -1))
  {
    assert v == [v[0]] + ['.'] + v[2..];
    assert !IsDigit('.');
    assert '.' !in v[2..];
    SplitCons([v[0]], v[2..], '.');
    SplitAtom(v[2..], '.');
    assert Split(v, '.') == [[v[0]], v[2..]];
    assert Value([v[0]]) == DigitValue(v[0]) by { assert [v[0]][..0] == []; }
    NineDigitsFitInt32(v[2..]);
  }

  /** What the greedy prefix does to every package made from text: the version has exactly
      two components and a single-digit major, whatever the text says. */
  lemma CreateVersionHasTwoComponents(name: string, text: Option<string>)
    ensures var v := Create(Some(name), text).value.version;
      v.build == -1 && v.revision == -1 && v.major <= 9
  {
    if !IsNullOrWhiteSpace(text) {
      var t := Trim(text.value);
      LineOfTrimmed(text.value);
      CreateFromGroups(name, text.value);
      match Match(t)
      case None =>
        ParseOrZeroEmpty();
      case Some(span) =>
        MatchShape(t);
        var v := t[span.start..span.end];
        assert GroupsOf(t).version == v;
        assert v[2..] == t[span.start + 2..span.end];
        DigitDotRunParses(v);
    }
  }

  /** "mylib-1.2.3-beta" has no whitespace at either end and no line feed. */
  lemma MylibTrimmed(t: string)
    requires t == "mylib-1.2.3-beta"
    ensures Trim(t) == t && Line(t) == t && '\n' !in t && !AllWhiteSpace(t)
  {
    assert !IsWhiteSpace(t[0]) && !IsWhiteSpace(t[|t| - 1]);
  }

  /** The characters of "mylib-1.2.3-beta" the two splits below depend on. */
  lemma MylibDigits(t: string)
    requires t == "mylib-1.2.3-beta"
    ensures t[..6] == "mylib-" && t[..8] == "mylib-1." && t[11..] == "-beta"
    ensures forall i | 0 <= i < 6 :: !IsDigit(t[i])
    ensures DigitDotDigitAt(t, 8) && DigitDotDigitAt(t[6..11], 0) && DigitDotDigitAt(t[6..11], 2)
    ensures forall i | 8 < i < |t| :: !DigitDotDigitAt(t, i)
    ensures !IsDigit(t[11]) && t[11] != '.'
    ensures DigitValue(t[6]) == 1 && DigitValue(t[8]) == 2 && DigitValue(t[10]) == 3
  {
    forall i | 8 < i < |t| ensures !DigitDotDigitAt(t, i) {
      assert i + 1 in {10, 11, 12, 13, 14, 15, 16};
    }
  }

  /** As written, "mylib-1.2.3-beta" splits as "mylib-1." / 2.3 / "-beta". */
  lemma CreateSplitsMylibExample(t: string)
    requires t == "mylib-1.2.3-beta"
    ensures var p := Create(Some("mylib"), Some(t)).value;
      && p.versionPrefix == "mylib-1."
      && p.version == Version(2, 3, -1, -1)
      && p.versionSuffix == "-beta"
  {
    MylibTrimmed(t);
    MylibDigits(t);
    CreateSplitsAtDigitDotRun("mylib", t, 8, 11);
    assert Value(t[10..11]) == 3 by { assert t[10..11][..0] == []; }
  }

  /** The package made from a trimmed text whose match is the digit-dot-run at `p..q`. */
  lemma CreateSplitsAtDigitDotRun(name: string, t: string, p: nat, q: nat)
    requires Trim(t) == t && Line(t) == t && '\n' !in t && !AllWhiteSpace(t)
    requires DigitDotDigitAt(t, p)
    requires forall i | p < i < |t| :: !DigitDotDigitAt(t, i)
    requires p + 3 <= q <= |t| && q - (p + 2) <= 9 && AllDigits(t[p + 2..q])
    requires q == |t| || !IsDigit(t[q]) || q - (p + 2) == 9
    ensures Create(Some(name), Some(t))
      == Success(NugetPackage(Trim(name), Version(DigitValue(t[p]), Value(t[p + 2..q]), -1, -1), t[..p], t[q..]))
  {
    MatchAtRightmostDigitDotDigit(t, p, q);
    var v := t[p..q];
    assert v[2..] == t[p + 2..q];
    DigitDotRunParses(v);
    CreateFromGroups(name, t);
  }

  // ---------------------------------------------------------------------------------
  // The split the group names promise

  /** The text constructor with the lazy prefix `(?<prefix>.*?)`: the numeric version is the
      longest one at the leftmost position where one can start. */
  function CreateCorrected(name: Option<string>, version: Option<string>): (r: Result<NugetPackage, Exception>)
    ensures r.Failure? <==> name.None?
    ensures r.Failure? ==> r.error == ArgumentNull("name")
    ensures r.Success? ==> r.value.name == Trim(name.value) && r.value.version.Valid()
  {
    if name.None? then
      Failure(ArgumentNull("name"))
    else if IsNullOrWhiteSpace(version) then
      Success(NugetPackage(Trim(name.value), Zero, "", ""))
    else
      var groups := GroupsOfLazy(Trim(version.value));
      Success(NugetPackage(Trim(name.value), ParseOrZero(groups.version), groups.prefix, groups.suffix))
  }

  /** A version text that is not blank goes through the lazy pattern's groups. */
  lemma CreateCorrectedFromGroups(name: string, text: string)
    requires !AllWhiteSpace(text)
    ensures var g := GroupsOfLazy(Trim(text));
      CreateCorrected(Some(name), Some(text))
        == Success(NugetPackage(Trim(name), ParseOrZero(g.version), g.prefix, g.suffix))
  {
  }

  /** A plain version text of two to four components of at most nine digits is read back
      whole: its components, in order, and nothing before or after it. */
  lemma CreateCorrectedReadsWholeVersion(name: string, text: string)
    requires IsVersionText(text)
    ensures var p := CreateCorrected(Some(name), Some(text)).value;
      && p.versionPrefix == "" && p.versionSuffix == ""
      && Some(p.version) == Versions.TryParse(text)
      && p.version.ComponentCount() == |Split(text, '.')|
  {
    VersionTextChars(text);
    VersionTextStartsWithDigit(text);
    assert !IsWhiteSpace(text[|text| - 1]);
    assert Trim(text) == text;
    LazyCapturesWholeVersionText(text);
    VersionTextParses(text);
    CreateCorrectedFromGroups(name, text);
  }

  /** Both constructors agree under the lazy prefix: the text of a version whose components
      have at most nine digits gives the same package as the structured version itself. */
  lemma CreateCorrectedAgreesWithFromVersion(name: string, v: Version)
    requires v.Valid()
    requires v.major < 1000000000 && v.minor < 1000000000
    requires v.build < 1000000000 && v.revision < 1000000000
    ensures CreateCorrected(Some(name), Some(ToText(v))) == Success(FromVersion(name, v))
  {
    var parts := Numerals(v);
    forall i | 0 <= i < |parts| ensures IsComponent(parts[i]) && '.' !in parts[i] {
      assert !IsDigit('.');
      TextLength(parts, v, i);
    }
    SplitJoin(parts, '.');
    assert IsVersionText(ToText(v));
    assert !AllWhiteSpace(ToText(v)) by {
      VersionTextChars(ToText(v));
      assert !IsWhiteSpace(ToText(v)[0]);
    }
    CreateCorrectedReadsWholeVersion(name, ToText(v));
    TryParseToText(v);
  }

  /** The numerals of a version whose components are below 10^9 have at most nine digits. */
  lemma TextLength(parts: seq<string>, v: Version, i: nat)
    requires v.Valid() && parts == Numerals(v) && i < |parts|
    requires v.major < 1000000000 && v.minor < 1000000000
    requires v.build < 1000000000 && v.revision < 1000000000
    ensures |parts[i]| <= 9
  {
    if i == 0 {
      NumeralBelowBillion(v.major);
    } else if i == 1 {
      NumeralBelowBillion(v.minor);
    } else if i == 2 {
      assert v.build >= 0 && parts[2] == Text(v.build);
      NumeralBelowBillion(v.build);
    } else {
      assert v.build >= 0 && v.revision >= 0 && parts[3] == Text(v.revision);
      NumeralBelowBillion(v.revision);
    }
  }

  /** The lazy prefix splits "mylib-1.2.3-beta" as "mylib-" / 1.2.3 / "-beta". */
  lemma CreateCorrectedSplitsMylibExample(t: string)
    requires t == "mylib-1.2.3-beta"
    ensures var p := CreateCorrected(Some("mylib"), Some(t)).value;
      && p.versionPrefix == "mylib-"
      && p.version == Version(1, 2, 3, -1)
      && p.versionSuffix == "-beta"
  {
    MylibTrimmed(t);
    MylibDigits(t);
    CreateCorrectedSplitsAtThreeDigits("mylib", t, 6);
  }

  /** The package the lazy prefix makes from a trimmed text whose first digit starts a
      three-component version of single digits followed by neither a digit nor a dot. */
  lemma CreateCorrectedSplitsAtThreeDigits(name: string, t: string, p: nat)
    requires Trim(t) == t && Line(t) == t && '\n' !in t && !AllWhiteSpace(t)
    requires p + 5 <= |t| && DigitDotDigitAt(t[p..p + 5], 0) && DigitDotDigitAt(t[p..p + 5], 2)
    requires forall i | 0 <= i < p :: !IsDigit(t[i])
    requires p + 5 == |t| || (!IsDigit(t[p + 5]) && t[p + 5] != '.')
    ensures CreateCorrected(Some(name), Some(t))
      == Success(NugetPackage(Trim(name), Version(DigitValue(t[p]), DigitValue(t[p + 2]), DigitValue(t[p + 4]), -1), t[..p], t[p + 5..]))
  {
    var v := t[p..p + 5];
    ThreeSingleDigitsParse(v);
    MatchLazyAt(t, p, p + 5);
    CreateCorrectedFromGroups(name, t);
  }

  /** Three single digits with dots between them parse as a three-component version. */
  lemma ThreeSingleDigitsParse(v: string)
    requires |v| == 5 && DigitDotDigitAt(v, 0) && DigitDotDigitAt(v, 2)
    ensures IsVersionText(v)
    ensures Versions.TryParse(v) == Some(Version(DigitValue(v[0]), DigitValue(v[2]), DigitValue(v[4]), -1))
  {
    assert !IsDigit('.');
    assert v == [v[0]] + ['.'] + v[2..];
    assert v[2..] == [v[2]] + ['.'] + [v[4]];
    SplitCons([v[0]], v[2..], '.');
    SplitCons([v[2]], [v[4]], '.');
    SplitAtom([v[4]], '.');
    assert Split(v, '.') == [[v[0]], [v[2]], [v[4]]];
    assert Value([v[0]]) == DigitValue(v[0]) by { assert [v[0]][..0] == []; }
    assert Value([v[2]]) == DigitValue(v[2]) by { assert [v[2]][..0] == []; }
    assert Value([v[4]]) == DigitValue(v[4]) by { assert [v[4]][..0] == []; }
  }

  /** As written, the two constructors disagree on the same version: the text "1.2.3" loses
      its major component, while the structured 1.2.3 keeps it. */
  lemma CreateDisagreesWithFromVersion()
    ensures Create(Some("A"), Some(ToText(Version(1, 2, 3, -1)))) != Success(FromVersion("A", Version(1, 2, 3, -1)))
  {
    CreateVersionHasTwoComponents("A", Some(ToText(Version(1, 2, 3, -1))));
  }

  // ---------------------------------------------------------------------------------
  // Ordering, equality and hashing

  /** The fields `Compare` looks at, in the order it looks at them; names and version texts
      are compared ignoring case. */
  function SortKey(p: NugetPackage): (string, Version, string, string) {
    (ToUpper(p.name), p.version, ToUpper(p.versionPrefix), ToUpper(p.versionSuffix))
  }

  /** What `GetHashCode` combines: the name ignoring case and the version, which are the
      leading fields of the sort key, so packages with one sort key share one hash key. */
  function HashKey(p: NugetPackage): (k: (string, Version))
    ensures k.0 == SortKey(p).0 && k.1 == SortKey(p).1
    ensures forall q: NugetPackage | Equals(p, Some(q)) :: k == (ToUpper(q.name), q.version)
  {
    (ToUpper(p.name), p.version)
  }

  function CompareFields(a: NugetPackage, b: NugetPackage): (r: int)
    ensures -1 <= r <= 1
  {
    var byName := CompareOrdinalIgnoreCase(a.name, b.name);
    if byName != 0 then byName
    else
      var byVersion := Versions.CompareTo(a.version, b.version);
      if byVersion != 0 then byVersion
      else
        var byPrefix := CompareOrdinalIgnoreCase(a.versionPrefix, b.versionPrefix);
        if byPrefix != 0 then byPrefix
        else CompareOrdinalIgnoreCase(a.versionSuffix, b.versionSuffix)
  }

  /** `NugetPackage.Compare`: the same package is equal to itself, null sorts first, and two
      packages compare by name, version, prefix and suffix in turn. Reference identity is
      modelled as value equality, which the field comparison also rates 0. */
  function Compare(left: Option<NugetPackage>, right: Option<NugetPackage>): (r: int)
    ensures -1 <= r <= 1
    ensures left == right ==> r == 0
    ensures left.None? && right.Some? ==> r == -1
    ensures left.Some? && right.None? ==> r == 1
  {
    if left == right then 0
    else if left.None? then -1
    else if right.None? then 1
    else CompareFields(left.value, right.value)
  }

  /** `Equals(NugetPackage? other)`: never equal to null, and otherwise equal exactly when
      the sort keys agree. */
  predicate Equals(self: NugetPackage, other: Option<NugetPackage>): (eq: bool)
    ensures eq <==> other.Some? && SortKey(self) == SortKey(other.value)
  {
    if other.Some? then
      CompareZeroIffSameSortKey(self, other.value);
      Compare(Some(self), other) == 0
    else
      Compare(Some(self), other) == 0
  }

  /** `CompareTo(NugetPackage? other)`. */
  function CompareTo(self: NugetPackage, other: Option<NugetPackage>): (r: int)
    ensures other.None? ==> r == 1
    ensures r == 0 <==> Equals(self, other)
  {
    Compare(Some(self), other)
  }

  /** Two packages compare equal exactly when they agree on name, prefix and suffix
      ignoring case and on the version. */
  lemma CompareZeroIffSameSortKey(a: NugetPackage, b: NugetPackage)
    ensures Compare(Some(a), Some(b)) == 0 <==> SortKey(a) == SortKey(b)
  {
  }

  lemma CompareFieldsAntisymmetric(a: NugetPackage, b: NugetPackage)
    ensures CompareFields(a, b) == -CompareFields(b, a)
  {
    CompareOrdinalAntisymmetric(ToUpper(a.name), ToUpper(b.name));
    Versions.CompareToAntisymmetric(a.version, b.version);
    CompareOrdinalAntisymmetric(ToUpper(a.versionPrefix), ToUpper(b.versionPrefix));
    CompareOrdinalAntisymmetric(ToUpper(a.versionSuffix), ToUpper(b.versionSuffix));
  }

  /** Swapping the arguments negates the result. */
  lemma CompareAntisymmetric(x: Option<NugetPackage>, y: Option<NugetPackage>)
    ensures Compare(x, y) == -Compare(y, x)
  {
    if x.Some? && y.Some? && x != y {
      CompareFieldsAntisymmetric(x.value, y.value);
    }
  }

  lemma CompareFieldsTransitive(a: NugetPackage, b: NugetPackage, c: NugetPackage)
    requires CompareFields(a, b) <= 0 && CompareFields(b, c) <= 0
    ensures CompareFields(a, c) <= 0
  {
    var na, nb, nc := ToUpper(a.name), ToUpper(b.name), ToUpper(c.name);
    CompareOrdinalAntisymmetric(na, nb);
    CompareOrdinalAntisymmetric(nb, nc);
    CompareOrdinalAntisymmetric(na, nc);
    if CompareOrdinal(na, nb) < 0 || CompareOrdinal(nb, nc) < 0 {
      CompareOrdinalTransitive(na, nb, nc);
      return;
    }
    Versions.CompareToAntisymmetric(a.version, b.version);
    Versions.CompareToAntisymmetric(b.version, c.version);
    Versions.CompareToAntisymmetric(a.version, c.version);
    if Versions.CompareTo(a.version, b.version) < 0 || Versions.CompareTo(b.version, c.version) < 0 {
      Versions.CompareToTransitive(a.version, b.version, c.version);
      return;
    }
    var pa, pb, pc := ToUpper(a.versionPrefix), ToUpper(b.versionPrefix), ToUpper(c.versionPrefix);
    CompareOrdinalAntisymmetric(pa, pb);
    CompareOrdinalAntisymmetric(pb, pc);
    CompareOrdinalAntisymmetric(pa, pc);
    if CompareOrdinal(pa, pb) < 0 || CompareOrdinal(pb, pc) < 0 {
      CompareOrdinalTransitive(pa, pb, pc);
      return;
    }
    CompareOrdinalTransitive(ToUpper(a.versionSuffix), ToUpper(b.versionSuffix), ToUpper(c.versionSuffix));
  }

  /** `Compare` is transitive, null included. */
  lemma CompareTransitive(x: Option<NugetPackage>, y: Option<NugetPackage>, z: Option<NugetPackage>)
    requires Compare(x, y) <= 0 && Compare(y, z) <= 0
    ensures Compare(x, z) <= 0
  {
    if x.Some? && y.Some? && z.Some? && x != z {
      if x == y || y == z {
      } else {
        CompareFieldsTransitive(x.value, y.value, z.value);
      }
    }
  }

  /** Equal packages have equal hash keys, so `GetHashCode` agrees with `Equals`. */
  lemma EqualsImpliesSameHashKey(a: NugetPackage, b: NugetPackage)
    requires Equals(a, Some(b))
    ensures HashKey(a) == HashKey(b)
  {
    CompareZeroIffSameSortKey(a, b);
  }

  /** `Equals` is an equivalence on packages, and a package never equals null. */
  lemma EqualsIsEquivalence(a: NugetPackage, b: NugetPackage, c: NugetPackage)
    ensures Equals(a, Some(a))
    ensures !Equals(a, None)
    ensures Equals(a, Some(b)) ==> Equals(b, Some(a))
    ensures Equals(a, Some(b)) && Equals(b, Some(c)) ==> Equals(a, Some(c))
  {
    CompareZeroIffSameSortKey(a, b);
    CompareZeroIffSameSortKey(b, a);
    CompareZeroIffSameSortKey(b, c);
    CompareZeroIffSameSortKey(a, c);
  }
}

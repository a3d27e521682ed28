/** `System.Version` as the core uses it: a value of two to four numeric components,
    compared component by component, read by a restricted `Version.TryParse`. */
module Versions {
  import opened Wrappers
  import opened Strings
  import opened Decimal

  /** major.minor[.build[.revision]]; an absent build or revision is stored as -1. */
  datatype Version = Version(major: int, minor: int, build: int, revision: int) {

    /** What the .NET constructors admit: every component fits in an `int`, the present ones
        are non-negative, and there is no revision without a build. */
    predicate Valid() {
      && 0 <= major <= Int32Max
      && 0 <= minor <= Int32Max
      && -1 <= build <= Int32Max
      && -1 <= revision <= Int32Max
      && (build == -1 ==> revision == -1)
    }

    /** How many components the version was written with: 2, 3 or 4. */
    function ComponentCount(): nat {
      if build < 0 then 2 else if revision < 0 then 3 else 4
    }
  }

  /** `new Version()`: 0.0, build and revision undefined. */
  const Zero: Version := Version(0, 0, -1, -1)

  function CompareInt(a: int, b: int): int {
    if a == b then 0 else if a > b then 1 else -1
  }

  /** `Version.CompareTo`: major, then minor, then build, then revision; an absent (-1)
      component sorts below every present one, so 1.2 comes before 1.2.0. */
  function CompareTo(a: Version, b: Version): (r: int)
    ensures -1 <= r <= 1
    ensures r == 0 <==> a == b
  {
    if a.major != b.major then CompareInt(a.major, b.major)
    else if a.minor != b.minor then CompareInt(a.minor, b.minor)
    else if a.build != b.build then CompareInt(a.build, b.build)
    else CompareInt(a.revision, b.revision)
  }

  lemma CompareToAntisymmetric(a: Version, b: Version)
    ensures CompareTo(a, b) == -CompareTo(b, a)
  {
  }

  lemma CompareToTransitive(a: Version, b: Version, c: Version)
    requires CompareTo(a, b) <= 0 && CompareTo(b, c) <= 0
    ensures CompareTo(a, c) <= 0
  {
  }

  /** A component `int.TryParse` accepts, restricted to plain digits: non-empty and within `int`. */
  predicate IsInt32Numeral(s: string) {
    1 <= |s| && AllDigits(s) && Value(s) <= Int32Max
  }

  /** `Version.TryParse`: two to four dot-separated components, each an `int` numeral. */
  function TryParse(s: string): (r: Option<Version>)
    ensures r.Some? ==> r.value.Valid()
    ensures r.Some? ==> r.value.ComponentCount() == |Split(s, '.')|
  {
    var parts := Split(s, '.');
    if 2 <= |parts| <= 4 && forall i | 0 <= i < |parts| :: IsInt32Numeral(parts[i]) then
      Some(Version(
        Value(parts[0]),
        Value(parts[1]),
        if |parts| > 2 then Value(parts[2]) else -1,
        if |parts| > 3 then Value(parts[3]) else -1))
    else
      None
  }

  /** `Version.TryParse` falling back to `new Version()`, as the callers in the core do. */
  function ParseOrZero(s: string): (v: Version)
    ensures v.Valid()
    ensures TryParse(s).Some? ==> TryParse(s) == Some(v)
    ensures TryParse(s).None? ==> v == Zero
    ensures forall w: Version {:trigger ToText(w)} | w.Valid() && ToText(w) == s :: v == w
  {
    assert forall w: Version {:trigger ToText(w)} | w.Valid() && ToText(w) == s :: TryParse(s) == Some(w) by {
      forall w: Version {:trigger ToText(w)} | w.Valid() && ToText(w) == s ensures TryParse(s) == Some(w) {
        TryParseToText(w);
      }
    }
    match TryParse(s)
    case Some(parsed) => parsed
    case None => Zero
  }

  /** The empty text a failed match leaves in the `version` group does not parse. */
  lemma ParseOrZeroEmpty()
    ensures ParseOrZero("") == Zero
  {
    assert Split("", '.') == [""];
  }

  /** The text of a valid version reads back as that version, never as the fallback. */
  lemma ParseOrZeroToText(v: Version)
    requires v.Valid()
    ensures ParseOrZero(ToText(v)) == v
  {
    TryParseToText(v);
  }

  /** The components of `v` as canonical numerals, in order. */
  function Numerals(v: Version): (parts: seq<string>)
    requires v.Valid()
    ensures |parts| == v.ComponentCount()
  {
    [Text(v.major), Text(v.minor)]
    + (if v.build < 0 then [] else [Text(v.build)])
    + (if v.revision < 0 then [] else [Text(v.revision)])
  }

  /** `Version.ToString()`: the present components joined with dots. */
  function ToText(v: Version): string
    requires v.Valid()
  {
    Join(Numerals(v), '.')
  }

  /** Reading back the text of a version gives the same version. */
  lemma TryParseToText(v: Version)
    requires v.Valid()
    ensures TryParse(ToText(v)) == Some(v)
  {
    var parts := Numerals(v);
    forall i | 0 <= i < |parts| ensures '.' !in parts[i] && IsInt32Numeral(parts[i]) {
      assert !IsDigit('.');
    }
    SplitJoin(parts, '.');
  }
}

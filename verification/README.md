# Simple.CodeParser: package identities and parent walks, in Dafny

This project models the part of Simple.CodeParser that finds the NuGet packages a C#
project file references, and the walks up a Roslyn syntax tree.

- **`NugetPackage`** (module `Nuget`). A package identity is a trimmed name, a `System.Version`,
  and the text found before and after the numeric version.
  - The text constructor splits the trimmed version text with the regular expression
    `^(?<prefix>.*)(?<version>[0-9]{1,9}(?:\.[0-9]{1,9}){1,3})(?<suffix>.*)$`.
    Module `VersionPattern` models this pattern. The `version` group is a language:
    two to four dot-separated runs of one to nine digits. The backtracking engine is a search
    that tries the start positions in the order the greedy prefix gives them back. At each start
    it takes the longest version text.
  - `Compare`, `Equals` and `CompareTo` are the null-aware, case-insensitive lexicographic
    order on (name, version, prefix, suffix). The hash key is the name ignoring case and the
    version, which equal packages share.
  - `System.Version` (module `Versions`) is four integers, with -1 for an absent build or
    revision. It has a component-wise `CompareTo` and a `TryParse`.
  - The .NET string operations the class relies on are in module `Strings`: `Trim`,
    `IsNullOrWhiteSpace` and `StringComparer.OrdinalIgnoreCase`. `Strings.Split` stands in
    for the way `Version.TryParse` cuts its text into dot-separated components.
- **`ProjectExtensions.NugetPackages`**. A loader parameter stands in for reading the project
  file and running the XPath query `//PackageReference[@Include and @Version]`.
  - A loaded document is its elements in document order.
  - The query is a filter on element name, namespace and attributes.
  - The loop maps each selected element to the project paired with a package. The package's
    version is the `Version` attribute parsed, or `new Version()` when that fails.
  - The iterator is modelled by the result of enumerating it to the end, a `Result`. It throws
    only before it yields anything, so the `Result` loses nothing.
- **`SyntaxNodeExtensions.Parents` and `SyntaxTokenExtensions.Parents`**. Module `SyntaxTree`
  models a node or a token as its kind plus an optional parent node. A walk follows `Parent`
  up to the root.

### What the pattern's group names suggest, and what the code does

The group names suggest that `"mylib-1.2.3-beta"` gives prefix `"mylib-"`, version 1.2.3
and suffix `"-beta"`, and that a plain `"1.2.3"` is read whole. The code does neither. Its
prefix group `.*` is greedy, so it splits the first text as `"mylib-1."`, 2.3, `"-beta"`
and the second as `"1."`, 2.3, `""`. The model follows the code; see the finding below.

## Model

| member | source | states |
|---|---|---|
| Nuget.Create | Structure/Simple.CodeParser.NugetPackage.cs:24-40 | fails exactly when the name is missing, with `ArgumentNullException("name")`; otherwise the name is trimmed and the version is a valid `System.Version` |
| Nuget.CreateBlankVersion | Structure/Simple.CodeParser.NugetPackage.cs:27-28 | a missing or blank version text gives version 0.0 with empty prefix and suffix |
| Nuget.CreateSplitsTrimmedText | Structure/Simple.CodeParser.NugetPackage.cs:30-38 | when the pattern matches, prefix + matched text + suffix is the trimmed text; the matched text is the longest at the rightmost start; it parses to the package's version |
| Nuget.CreateWithoutMatch | Structure/Simple.CodeParser.NugetPackage.cs:30-38 | a trimmed text with no digit-dot-digit, or with a line feed inside, gives 0.0 with empty prefix and suffix |
| Nuget.CreateVersionHasTwoComponents | Structure/Simple.CodeParser.NugetPackage.cs:11-35 | as written, every package made from text has no build or revision component, and a major version of at most 9 |
| Nuget.CreateSplitsAtDigitDotRun | Structure/Simple.CodeParser.NugetPackage.cs:11-38 | the package made from a text whose rightmost digit-dot-digit starts a run of digits: prefix before it, version digit.run, suffix after it |
| Nuget.CreateSplitsMylibExample | Structure/Simple.CodeParser.NugetPackage.cs:11-38 | as written, "mylib-1.2.3-beta" gives prefix "mylib-1.", version 2.3, suffix "-beta" |
| Nuget.CreateDisagreesWithFromVersion | Structure/Simple.CodeParser.NugetPackage.cs:24-40 | as written, the text "1.2.3" and the structured version 1.2.3 give different packages |
| Nuget.CreateCorrected | Structure/Simple.CodeParser.NugetPackage.cs:24-40 | the constructor with a lazy prefix: same failure and name behaviour as the original |
| Nuget.CreateCorrectedReadsWholeVersion | Structure/Simple.CodeParser.NugetPackage.cs:11-38 | with the lazy prefix, a plain version text is read back whole: empty prefix and suffix, version equal to `TryParse` of the text, all components kept |
| Nuget.CreateCorrectedAgreesWithFromVersion | Structure/Simple.CodeParser.NugetPackage.cs:24-40 | with the lazy prefix, the text of a version whose components are below 10^9 gives the same package as the structured version |
| Nuget.CreateCorrectedSplitsAtThreeDigits | Structure/Simple.CodeParser.NugetPackage.cs:11-38 | with the lazy prefix, a text whose first digit starts d.d.d (followed by neither a digit nor a dot) gives prefix before it, version d.d.d, suffix after it |
| Nuget.CreateCorrectedSplitsMylibExample | Structure/Simple.CodeParser.NugetPackage.cs:11-38 | with the lazy prefix, "mylib-1.2.3-beta" gives "mylib-", 1.2.3, "-beta" |
| Nuget.Compare | Structure/Simple.CodeParser.NugetPackage.cs:49-73 | the sign of the result (the model returns -1, 0 or 1; see "Left out"); the same package compares 0; null sorts before any package |
| Nuget.CompareTo | Structure/Simple.CodeParser.NugetPackage.cs:129 | a package is greater than null, and `CompareTo` is 0 exactly when `Equals` holds |
| Nuget.Equals | Structure/Simple.CodeParser.NugetPackage.cs:109 | never equal to null; otherwise equal exactly when name, prefix and suffix agree ignoring case and the versions are equal |
| Nuget.HashKey | Structure/Simple.CodeParser.NugetPackage.cs:119-120 | the hash key is consistent with `Equals`: every package equal to this one has the same upper-cased name and version, which are the key |
| Nuget.FromVersion | Structure/Simple.CodeParser.ProjectExtensions.cs:54 | among packages with empty prefix and suffix, the structured package is equal to another exactly when their hash keys (upper-cased name, version) agree; it keeps the given version and trims the name (an assumption, see "Left out") |
| Nuget.CompareZeroIffSameSortKey | Structure/Simple.CodeParser.NugetPackage.cs:57-72 | two packages compare 0 exactly when name, prefix and suffix agree ignoring case and the versions are equal |
| Nuget.CompareAntisymmetric | Structure/Simple.CodeParser.NugetPackage.cs:49-73 | swapping the arguments negates the result, null included |
| Nuget.CompareTransitive | Structure/Simple.CodeParser.NugetPackage.cs:49-73 | `Compare(x, y) <= 0` and `Compare(y, z) <= 0` give `Compare(x, z) <= 0`, null included |
| Nuget.EqualsImpliesSameHashKey | Structure/Simple.CodeParser.NugetPackage.cs:109-120 | equal packages have the same hash key (name ignoring case, version) |
| Nuget.EqualsIsEquivalence | Structure/Simple.CodeParser.NugetPackage.cs:109 | `Equals` is reflexive, symmetric and transitive, and false for null |
| VersionPattern.Match | Structure/Simple.CodeParser.NugetPackage.cs:11 | a match lies in a text without line feed, starts at the rightmost position where a version text can start and is the longest version text there; no match means a line feed or no version text anywhere |
| VersionPattern.GroupsOf | Structure/Simple.CodeParser.NugetPackage.cs:30-38 | on a match the three groups concatenate to the text and the `version` group is a version text; otherwise all three are empty |
| VersionPattern.LongestAtIsLongest | Structure/Simple.CodeParser.NugetPackage.cs:11 | at a given start, no version text is longer than the one the greedy `version` group takes, and when it takes none there is none |
| VersionPattern.MatchShape | Structure/Simple.CodeParser.NugetPackage.cs:11 | every match is one digit, a dot and 1 to 9 digits, starting at the rightmost digit-dot-digit, cut only where the digits end or after nine of them |
| VersionPattern.MatchAtRightmostDigitDotDigit | Structure/Simple.CodeParser.NugetPackage.cs:11 | conversely, such a digit-dot-run is the match |
| VersionPattern.MatchIffDigitDotDigit | Structure/Simple.CodeParser.NugetPackage.cs:11 | without a line feed, the pattern matches exactly when the text contains digit, dot, digit |
| VersionPattern.VersionTextParses | Structure/Simple.CodeParser.NugetPackage.cs:32-35 | every text the `version` group can capture parses, so the `new Version()` fallback after a match is never taken |
| VersionPattern.MatchLazy | Structure/Simple.CodeParser.NugetPackage.cs:11 | with a lazy prefix the match starts at the leftmost possible position and is the longest version text there |
| VersionPattern.MatchLazyAt | Structure/Simple.CodeParser.NugetPackage.cs:11 | with a lazy prefix, a version text with no digit before it and neither digit nor dot after it is the match |
| VersionPattern.LazyCapturesWholeVersionText | Structure/Simple.CodeParser.NugetPackage.cs:11 | with a lazy prefix, a text that is a version text is captured whole, with empty prefix and suffix |
| Strings.IsNullOrWhiteSpace | Structure/Simple.CodeParser.NugetPackage.cs:27 | true exactly for null or a text that trims to nothing |
| Strings.Trim | Structure/Simple.CodeParser.NugetPackage.cs:25 | the trimmed text is empty exactly when the text is all whitespace; a text without whitespace at either end is unchanged |
| Strings.TrimRemovesOnlyOuterWhiteSpace | Structure/Simple.CodeParser.NugetPackage.cs:25 | `Trim` removes the leading and trailing whitespace and nothing else |
| Strings.CompareOrdinalIgnoreCase | Structure/Simple.CodeParser.NugetPackage.cs:57 | result in -1..1, and 0 exactly when the upper-cased texts are equal |
| Strings.CompareOrdinalAntisymmetric | Structure/Simple.CodeParser.NugetPackage.cs:57 | swapping the texts negates the ordinal comparison |
| Strings.CompareOrdinalTransitive | Structure/Simple.CodeParser.NugetPackage.cs:57 | the ordinal comparison is transitive |
| Strings.Split | Structure/Simple.CodeParser.NugetPackage.cs:32 | the parts joined with the separator give the text back, and no part holds the separator |
| Strings.SplitJoin | Structure/Simple.CodeParser.NugetPackage.cs:32 | splitting parts joined with a separator they do not contain gives the parts back |
| Versions.CompareTo | Structure/Simple.CodeParser.NugetPackage.cs:62 | result in -1..1, and 0 exactly when the versions are equal |
| Versions.CompareToTransitive | Structure/Simple.CodeParser.NugetPackage.cs:62 | the version order is transitive |
| Versions.TryParse | Structure/Simple.CodeParser.NugetPackage.cs:32-35 | a parsed version is valid and has as many components as the text has dot-separated parts |
| Versions.TryParseToText | Structure/Simple.CodeParser.NugetPackage.cs:32-35 | parsing the text of a valid version gives the version back |
| Versions.ParseOrZero | Structure/Simple.CodeParser.ProjectExtensions.cs:50-52 | the text of any valid version reads back as exactly that version; a text that does not parse gives 0.0 (also NugetPackage.cs:32-35) |
| Versions.ParseOrZeroToText | Structure/Simple.CodeParser.NugetPackage.cs:32-35 | the text of a valid version reads back as that version, never as the 0.0 fallback |
| Versions.ParseOrZeroEmpty | Structure/Simple.CodeParser.NugetPackage.cs:32-35 | the empty `version` group left by a failed match falls back to 0.0 |
| ProjectExtensions.SelectNodes | Structure/Simple.CodeParser.ProjectExtensions.cs:32 | selects exactly the `PackageReference` elements outside any namespace that carry both `Include` and `Version` |
| ProjectExtensions.SelectNodesConcat | Structure/Simple.CodeParser.ProjectExtensions.cs:32 | the selection keeps document order: selecting from a + b is the selection from a followed by the one from b |
| ProjectExtensions.SelectNodesSkips | Structure/Simple.CodeParser.ProjectExtensions.cs:32 | an element the query does not match can be removed without changing the selection |
| ProjectExtensions.PackageOf | Structure/Simple.CodeParser.ProjectExtensions.cs:42-54 | every node the query selects yields a package; a yielded package's version is the version whose text the `Version` attribute holds, and 0.0 when that text does not parse |
| ProjectExtensions.Packages | Structure/Simple.CodeParser.ProjectExtensions.cs:41-55 | at most one pair per node, each holding the project and a package with empty prefix and suffix |
| ProjectExtensions.PackagesOfSelected | Structure/Simple.CodeParser.ProjectExtensions.cs:41-55 | the attribute check in the loop never skips a selected node: one package per node, position by position |
| ProjectExtensions.NugetPackages | Structure/Simple.CodeParser.ProjectExtensions.cs:20-56 | a null project fails with `ArgumentNullException("project")`; no file path or no node list gives nothing; a failing load fails with `ArgumentException` on `project` wrapping the cause; otherwise one pair per selected node, all holding the project |
| ProjectExtensions.NugetPackagesOfDocument | Structure/Simple.CodeParser.ProjectExtensions.cs:41-54 | for a loaded document, the i-th result is the project with the package of the i-th selected element |
| ProjectExtensions.NugetPackagesIgnoresOtherElements | Structure/Simple.CodeParser.ProjectExtensions.cs:32 | removing an element that is not a package reference leaves the result unchanged |
| SyntaxTree.Walk | Syntax/Simple.CoderParser.Syntax.SyntaxNodeExtensions.cs:21-22 | the walk starts at the start node, steps from each node to its parent, ends at the root, and has one entry per level of depth |
| SyntaxTree.ParentChainIsWalk | Syntax/Simple.CoderParser.Syntax.SyntaxNodeExtensions.cs:21-22 | any such parent chain from a start is the walk, so the walk is unique |
| SyntaxTree.WalkHasNoRepeats | Syntax/Simple.CoderParser.Syntax.SyntaxNodeExtensions.cs:21-22 | the walk never lists the same node twice |
| SyntaxNodeExtensions.Parents | Syntax/Simple.CoderParser.Syntax.SyntaxNodeExtensions.cs:14-23 | fails exactly for a null source, with `ArgumentNullException("source")`; otherwise a parent chain from the source (`includeSelf`) or from its parent, with depth + 1 or depth entries |
| SyntaxNodeExtensions.ParentsAreProperAncestors | Syntax/Simple.CoderParser.Syntax.SyntaxNodeExtensions.cs:18-22 | without `includeSelf` the source is not listed, no node is listed twice, and every listed node lies above the source |
| SyntaxNodeExtensions.ParentsEndAtRoot | Syntax/Simple.CoderParser.Syntax.SyntaxNodeExtensions.cs:21-22 | a non-empty result ends at the root of the tree |
| SyntaxTokenExtensions.Parents | Syntax/Simple.CoderParser.Syntax.SyntaxTokenExtensions.cs:15-18 | the parent chain from the token's parent: empty for a token outside any node, one entry per level otherwise |
| SyntaxTokenExtensions.TokenParentsAreNodeParents | Syntax/Simple.CoderParser.Syntax.SyntaxTokenExtensions.cs:15-18 | a token's parents are the parents of the node holding it, that node included |

## Left out

- `TryGetIdentifier`, on both nodes and tokens, is left out because it looks up an `Identifier` property by reflection.
- `ParseSourceFiles`, `ParseSourceCodes` and `ParseSyntaxNodes` are left out because they read files and run the Roslyn parser.
- Reading the project file, XML parsing and XPath evaluation are left out. A loader function parameter stands in for them, and an exception it raises is given by its text.
- The laziness of the iterators is left out. Each operation is modelled by the result of enumerating it to the end.
- `NugetPackage.ToString` and `Equals(object)` are left out because they only format or cast.
- The numeric value of `GetHashCode` is left out. The model keeps only what it is computed from, the upper-cased name and the version (`Nuget.HashKey`).
- Nuget.FromVersion: the `(string, Version)` constructor called at ProjectExtensions.cs:54 is declared in another part of the partial class `NugetPackage` (NugetPackage.cs:8), outside NugetPackage.cs. Its body is not modelled. It is assumed to trim the name like the text constructor, and to leave prefix and suffix at their `""` initialisers (NugetPackage.cs:88, 93).
- Nuget.Compare: reference identity (`ReferenceEquals`) is modelled as value equality. The field comparison rates two equal values 0 anyway.
- Nuget.Compare: the program returns the raw value of `StringComparer.OrdinalIgnoreCase.Compare` (NugetPackage.cs:60, 70, 72), a character or length difference such as -2 for names "A" and "C". The model returns only its sign, so the -1..1 range is the model's, not the program's.
- Strings.ToUpper: case-insensitive comparison upper-cases ASCII letters only. Unicode case mapping is not modelled.
- Strings.CompareOrdinal: only the sign of the .NET result is returned, because the sign is all the .NET contract promises.
- Strings.CompareOrdinal: characters are compared as Unicode scalar values, not as UTF-16 code units. A supplementary character (above U+FFFF) therefore sorts after every character in U+E000..U+FFFF, where .NET sorts it before them by its lead surrogate; `Strings.CompareOrdinalIgnoreCase` and `Nuget.Compare` inherit this.
- Versions.TryParse: only plain digit components are accepted. The leading or trailing whitespace, the `+` sign and the `-` sign (so "-0" reads as 0) that `int.TryParse` tolerates inside a component are not modelled; the model rejects them. The `version` group only ever captures digits and dots, so this matters only for the `Version` attribute read by `NugetPackages`.
- SyntaxTree.Node: a node is its kind and its parent chain. Children, positions and node identity are not modelled.

## Findings

| source | as written | input that shows it | evidently intended | confidence | as-written member | corrected member |
|---|---|---|---|---|---|---|
| Structure/Simple.CodeParser.NugetPackage.cs:11 | the prefix group `(?<prefix>.*)` is greedy. The engine therefore starts the `version` group at the rightmost digit-dot-digit, so it always captures one digit, a dot and one run of digits | "mylib-1.2.3-beta" gives prefix "mylib-1.", version 2.3, suffix "-beta"; "1.2.3" gives version 2.3 and not 1.2.3 | a lazy prefix `(?<prefix>.*?)`, which gives "mylib-", 1.2.3, "-beta" and reads a plain version text whole | high; not executed | Nuget.CreateSplitsMylibExample | Nuget.CreateCorrectedSplitsMylibExample |

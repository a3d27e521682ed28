/** `ProjectExtensions.NugetPackages`: the package references a project file declares.
    The project file is reached through a loader, so reading and parsing the XML stays
    outside the model; a loaded document is the list of its elements in document order. */
module ProjectExtensions {
  import opened Wrappers
  import opened Exceptions
  import opened Versions
  import opened Nuget

  /** The part of a workspace project the operation reads: its file path, if any. */
  datatype Project = Project(filePath: Option<string>)

  /** An element of the project file: its local name, its namespace URI ("" for none) and
      its attributes by name. */
  datatype XmlElement = XmlElement(localName: string, namespaceUri: string, attributes: map<string, string>)

  /** What loading the project file and running the XPath query gives: an exception (its
      text), no node list at all, or the document's elements in document order. */
  datatype ManifestLoad =
    | LoadFailed(cause: string)
    | NoNodeList
    | Loaded(elements: seq<XmlElement>)

  /** `//PackageReference[@Include and @Version]`: an element named `PackageReference`
      outside any namespace that carries both attributes. */
  predicate IsPackageReference(e: XmlElement) {
    && e.localName == "PackageReference"
    && e.namespaceUri == ""
    && "Include" in e.attributes
    && "Version" in e.attributes
  }

  /** `SelectNodes` with the query above: the matching elements, in document order. */
  function SelectNodes(elements: seq<XmlElement>): (nodes: seq<XmlElement>)
    ensures |nodes| <= |elements|
    ensures forall i | 0 <= i < |nodes| :: IsPackageReference(nodes[i])
    ensures forall e :: e in nodes <==> e in elements && IsPackageReference(e)
  {
    if |elements| == 0 then []
    else
      var rest := SelectNodes(elements[1..]);
      assert elements == [elements[0]] + elements[1..];
      if IsPackageReference(elements[0]) then [elements[0]] + rest else rest
  }

  /** The query keeps the document order: selecting from two parts of a document gives the
      selections of the parts one after the other. */
  lemma {:induction false} SelectNodesConcat(a: seq<XmlElement>, b: seq<XmlElement>)
    ensures SelectNodes(a + b) == SelectNodes(a) + SelectNodes(b)
  {
    if |a| > 0 {
      assert (a + b)[1..] == a[1..] + b;
      SelectNodesConcat(a[1..], b);
    } else {
      assert a + b == b;
    }
  }

  /** The package one node of the loop yields: none when either attribute is missing;
      otherwise the `Include` text as the name and the `Version` text parsed, `new Version()`
      when it does not parse. */
  function PackageOf(e: XmlElement): (p: Option<NugetPackage>)
    ensures p.Some? <==> "Include" in e.attributes && "Version" in e.attributes
    ensures p.Some? ==> p.value == FromVersion(e.attributes["Include"], ParseOrZero(e.attributes["Version"]))
    ensures p.Some? ==> p.value.version.Valid()
    ensures p.Some? && TryParse(e.attributes["Version"]).None? ==> p.value.version == Zero
    ensures IsPackageReference(e) ==> p.Some?
    ensures p.Some? ==> "Version" in e.attributes
    ensures p.Some? ==>
      forall w: Version {:trigger ToText(w)} | w.Valid() && ToText(w) == e.attributes["Version"] :: p.value.version == w
  {
    if "Include" !in e.attributes || "Version" !in e.attributes then None
    else Some(FromVersion(e.attributes["Include"], ParseOrZero(e.attributes["Version"])))
  }

  /** The package of a node the query selected: the `Include` text as the name and the
      `Version` text parsed. */
  function ReferencedPackage(e: XmlElement): NugetPackage
    requires IsPackageReference(e)
  {
    FromVersion(e.attributes["Include"], ParseOrZero(e.attributes["Version"]))
  }

  /** The `foreach` over the selected nodes: each node with both attributes yields the
      project paired with its package, in node order. */
  function Packages(project: Project, nodes: seq<XmlElement>): (r: seq<(Project, NugetPackage)>)
    ensures |r| <= |nodes|
    ensures forall i | 0 <= i < |r| :: r[i].0 == project
    ensures forall i | 0 <= i < |r| :: r[i].1.versionPrefix == "" && r[i].1.versionSuffix == ""
  {
    if |nodes| == 0 then []
    else
      var rest := Packages(project, nodes[1..]);
      match PackageOf(nodes[0])
      case None => rest
      case Some(p) => [(project, p)] + rest
  }

  /** The attribute test inside the loop never skips a node the query selected: every
      selected node yields exactly one package, in the same position. */
  lemma {:induction false} PackagesOfSelected(project: Project, nodes: seq<XmlElement>)
    requires forall i | 0 <= i < |nodes| :: IsPackageReference(nodes[i])
    ensures |Packages(project, nodes)| == |nodes|
    ensures forall i | 0 <= i < |nodes| :: Packages(project, nodes)[i] == (project, ReferencedPackage(nodes[i]))
  {
    if |nodes| > 0 {
      PackagesOfSelected(project, nodes[1..]);
      var r := Packages(project, nodes);
      assert r == [(project, ReferencedPackage(nodes[0]))] + Packages(project, nodes[1..]);
      forall i | 0 <= i < |nodes| ensures r[i] == (project, ReferencedPackage(nodes[i])) {
        if i > 0 { assert nodes[1..][i - 1] == nodes[i]; }
      }
    }
  }

  /** `project.NugetPackages()` enumerated to the end, with the project file read through
      `load`: a missing project is an `ArgumentNullException`, a project without a file path
      has no packages, a load that throws becomes an `ArgumentException` on `project`
      wrapping the cause, a missing node list gives no packages, and otherwise every
      selected node yields one package. */
  function NugetPackages(project: Option<Project>, load: string -> ManifestLoad)
    : (r: Result<seq<(Project, NugetPackage)>, Exception>)
    ensures project.None? ==> r == Failure(ArgumentNull("project"))
    ensures project.Some? && project.value.filePath.None? ==> r == Success([])
    ensures r.Failure? <==>
      project.None? || (project.value.filePath.Some? && load(project.value.filePath.value).LoadFailed?)
    ensures project.Some? && project.value.filePath.Some? ==>
      match load(project.value.filePath.value)
      case LoadFailed(cause) => r == Failure(Argument("project", cause))
      case NoNodeList => r == Success([])
      case Loaded(elements) => r.Success? && |r.value| == |SelectNodes(elements)|
    ensures r.Success? ==> forall i | 0 <= i < |r.value| :: r.value[i].0 == project.value
  {
    if project.None? then
      Failure(ArgumentNull("project"))
    else if project.value.filePath.None? then
      Success([])
    else
      match load(project.value.filePath.value)
      case LoadFailed(cause) => Failure(Argument("project", cause))
      case NoNodeList => Success([])
      case Loaded(elements) =>
        var nodes := SelectNodes(elements);
        PackagesOfSelected(project.value, nodes);
        Success(Packages(project.value, nodes))
  }

  /** For a loaded document the result is, position by position, the document's package
      references: the trimmed `Include` text as the name and the parsed `Version` text. */
  lemma NugetPackagesOfDocument(project: Project, load: string -> ManifestLoad, elements: seq<XmlElement>)
    requires project.filePath.Some? && load(project.filePath.value) == Loaded(elements)
    ensures var r := NugetPackages(Some(project), load);
      var nodes := SelectNodes(elements);
      && r.Success? && |r.value| == |nodes|
      && forall i | 0 <= i < |nodes| :: r.value[i] == (project, ReferencedPackage(nodes[i]))
  {
    PackagesOfSelected(project, SelectNodes(elements));
  }

  /** Dropping an element the query does not select leaves the selection as it was. */
  lemma SelectNodesSkips(before: seq<XmlElement>, e: XmlElement, after: seq<XmlElement>)
    requires !IsPackageReference(e)
    ensures SelectNodes(before + [e] + after) == SelectNodes(before + after)
  {
    SelectNodesConcat(before + [e], after);
    SelectNodesConcat(before, [e]);
    SelectNodesConcat(before, after);
    assert SelectNodes([e]) == [] by { assert [e][1..] == []; }
    assert SelectNodes(before) + [] == SelectNodes(before);
  }

  /** Elements that are not package references (another name, a namespace, a missing
      attribute) contribute nothing: the result is that of the document without them. */
  lemma NugetPackagesIgnoresOtherElements(
    project: Project, load: string -> ManifestLoad, without: string -> ManifestLoad,
    before: seq<XmlElement>, e: XmlElement, after: seq<XmlElement>)
    requires project.filePath.Some?
    requires load(project.filePath.value) == Loaded(before + [e] + after)
    requires without(project.filePath.value) == Loaded(before + after)
    requires !IsPackageReference(e)
    ensures NugetPackages(Some(project), load) == NugetPackages(Some(project), without)
  {
    SelectNodesSkips(before, e, after);
  }
}

/**
 * The tree view of src/view/projectsView.ts: project items at the root,
 * deployment items below each project, and the library reference a
 * deployment item copies to the clipboard.
 */
module ProjectsView {
  import W = Wrappers
  import opened JsStrings
  import opened Client

  /** VS Code's collapsible state of a tree item. */
  datatype TreeItemCollapsibleState = None | Collapsed | Expanded

  /** A root item: one script project. */
  datatype ProjectItem = ProjectItem(project: Project, collapsibleState: TreeItemCollapsibleState)
  {
    function Label(): string { project.name }
    function ContextValue(): string { "project" }
    function Id(): string { project.id }
    function Tooltip(): string { project.name }
  }

  /** A child item: one deployment of the project it sits under. */
  datatype DeploymentItem = DeploymentItem(deployment: Deployment, project: Project,
                                           collapsibleState: TreeItemCollapsibleState)
  {
    function Label(): string { deployment.versionIdentity }
    function ContextValue(): string { "deployment" }
    function Id(): string { deployment.id }
    function ProjectId(): string { deployment.projectId }
    function Description(): W.Option<string> { deployment.description }
    function Tooltip(): string { deployment.versionIdentity }
  }

  /** An element of the tree: a project item or a deployment item. */
  datatype DependencyElement = ProjectNode(projectItem: ProjectItem) | DeploymentNode(deploymentItem: DeploymentItem)
  {
    function ContextValue(): string {
      match this
      case ProjectNode(p) => p.ContextValue()
      case DeploymentNode(d) => d.ContextValue()
    }
  }

  /**
   * The fields a tree item shows: a project item is labelled and titled with
   * the project name and keyed by the project id; a deployment item is
   * labelled and titled with the version identity, keyed by the deployment
   * id, and carries the deployment's script id and description.
   */
  lemma ItemFields(p: ProjectItem, d: DeploymentItem)
    ensures p.Label() == p.Tooltip() == p.project.name && p.Id() == p.project.id
    ensures p.ContextValue() == "project"
    ensures d.Label() == d.Tooltip() == d.deployment.versionIdentity && d.Id() == d.deployment.id
    ensures d.ProjectId() == d.deployment.projectId && d.Description() == d.deployment.description
    ensures d.ContextValue() == "deployment"
  {
  }

  /** The context value (which selects the item's menu commands) tells the two kinds apart. */
  lemma ContextValueIdentifiesKind(e: DependencyElement)
    ensures e.ContextValue() == "project" <==> e.ProjectNode?
    ensures e.ContextValue() == "deployment" <==> e.DeploymentNode?
  {
  }

  // ---------------------------------------------------------------- userSymbol

  /** `replace(/^\d+/, '')`: drops the longest run of leading ASCII digits. */
  function StripLeadingDigits(s: string): (r: string)
    ensures |r| <= |s| && r == s[|s| - |r|..]
    ensures forall i :: 0 <= i < |s| - |r| ==> IsDigit(s[i])
    ensures r != [] ==> !IsDigit(r[0])
  {
    if s != [] && IsDigit(s[0]) then StripLeadingDigits(s[1..]) else s
  }

  /** The character class `[-@\s]`. */
  predicate IsSymbolSeparator(c: char) {
    c == '-' || c == '@' || IsJsWhitespace(c)
  }

  /** `replace(/[-@\s]/g, '')`: deletes every separator and keeps the rest in order. */
  function RemoveSeparators(s: string): (r: string)
    ensures |r| <= |s|
    ensures s != [] && !IsSymbolSeparator(s[0]) ==> r != [] && r[0] == s[0]
  {
    if s == [] then []
    else
      var rest := RemoveSeparators(s[1..]);
      if IsSymbolSeparator(s[0]) then rest else [s[0]] + rest
  }

  /** No separator survives, and every other character keeps its count. */
  lemma {:induction false} RemoveSeparatorsContents(s: string)
    ensures var r := RemoveSeparators(s);
            && (forall c <- r :: !IsSymbolSeparator(c))
            && (forall c :: !IsSymbolSeparator(c) ==> multiset(r)[c] == multiset(s)[c])
  {
    if s != [] {
      RemoveSeparatorsContents(s[1..]);
      assert s == [s[0]] + s[1..];
    }
  }

  /** `a` can be obtained from `b` by deleting characters. */
  ghost predicate IsSubsequence(a: string, b: string)
    decreases |b|
  {
    || a == []
    || (|b| > 0 && |a| <= |b|
        && ((a[0] == b[0] && IsSubsequence(a[1..], b[1..])) || IsSubsequence(a, b[1..])))
  }

  /** Removing separators keeps the remaining characters in their order. */
  lemma {:induction false} RemoveSeparatorsSubsequence(s: string)
    ensures IsSubsequence(RemoveSeparators(s), s)
  {
    if s != [] {
      RemoveSeparatorsSubsequence(s[1..]);
      var rest := RemoveSeparators(s[1..]);
      if !IsSymbolSeparator(s[0]) {
        assert ([s[0]] + rest)[1..] == rest;
      }
    }
  }

  /** A subsequence of a suffix is a subsequence of the whole. */
  lemma {:induction false} SubsequenceOfSuffix(a: string, b: string, n: nat)
    requires n <= |b| && IsSubsequence(a, b[n..])
    ensures IsSubsequence(a, b)
  {
    if n > 0 {
      assert b[n - 1..][1..] == b[n..];
      SubsequenceOfSuffix(a, b, n - 1);
    }
  }

  /** A subsequence is no longer than the sequence it comes from. */
  lemma SubsequenceNoLonger(a: string, b: string)
    requires IsSubsequence(a, b)
    ensures |a| <= |b|
  {
  }

  /** The identifier the library is imported under, derived from the project name. */
  function UserSymbol(name: string): (sym: string)
    ensures |sym| <= |name|
  {
    RemoveSeparators(StripLeadingDigits(name))
  }

  /**
   * The symbol has no separator left, keeps characters of the name in their
   * order, and is empty for a name made of digits only. Exactly: it is the
   * name without its leading digits, with every separator deleted and every
   * other character kept, in order, as often as it occurs there.
   */
  lemma UserSymbolProperties(name: string)
    ensures var sym := UserSymbol(name);
            && (forall c <- sym :: c != '-' && c != '@' && !IsJsWhitespace(c))
            && IsSubsequence(sym, name) && |sym| <= |name|
            && ((forall i :: 0 <= i < |name| ==> IsDigit(name[i])) ==> sym == [])
            && var stripped := StripLeadingDigits(name);
               && IsSubsequence(sym, stripped)
               && forall c :: !IsSymbolSeparator(c) ==> multiset(sym)[c] == multiset(stripped)[c]
  {
    var stripped := StripLeadingDigits(name);
    var sym := RemoveSeparators(stripped);
    RemoveSeparatorsSubsequence(stripped);
    RemoveSeparatorsContents(stripped);
    SubsequenceOfSuffix(sym, name, |name| - |stripped|);
    SubsequenceNoLonger(sym, name);
  }

  /** Separators are removed piece by piece. */
  lemma {:induction false} RemoveSeparatorsAppend(a: string, b: string)
    ensures RemoveSeparators(a + b) == RemoveSeparators(a) + RemoveSeparators(b)
  {
    if a != [] {
      assert (a + b)[1..] == a[1..] + b;
      RemoveSeparatorsAppend(a[1..], b);
    } else {
      assert a + b == b;
    }
  }

  /** The ` @` before a version tag disappears entirely. */
  lemma DropTagMark(tag: string)
    ensures RemoveSeparators(" @" + tag) == RemoveSeparators(tag)
  {
    var marked := " @" + tag;
    assert marked[1..] == "@" + tag;
    assert marked[1..][1..] == tag;
  }

  /** Exactly the leading run of digits is stripped, however long it is. */
  lemma {:induction false} StripDigitsPrefix(digits: string, rest: string)
    requires forall i :: 0 <= i < |digits| ==> IsDigit(digits[i])
    requires rest == [] || !IsDigit(rest[0])
    ensures StripLeadingDigits(digits + rest) == rest
  {
    if digits != [] {
      assert (digits + rest)[1..] == digits[1..] + rest;
      StripDigitsPrefix(digits[1..], rest);
    }
  }

  /**
   * A name made of a numeric prefix, a name proper and a version tag written
   * ` @tag`: the digits go, and the tag is kept, only without separators
   * (`3-My-App @v1` gives `MyAppv1`).
   */
  lemma UserSymbolOfTaggedName(digits: string, name: string, tag: string)
    requires forall i :: 0 <= i < |digits| ==> IsDigit(digits[i])
    requires name != [] && !IsDigit(name[0])
    ensures UserSymbol(digits + name + " @" + tag) == RemoveSeparators(name) + RemoveSeparators(tag)
  {
    var marked := " @" + tag;
    var rest := name + marked;
    assert digits + name + " @" + tag == digits + rest;
    StripDigitsPrefix(digits, rest);
    RemoveSeparatorsAppend(name, marked);
    DropTagMark(tag);
  }

  // ------------------------------------------------------ copyLibraryReference

  /** The object copyLibraryReference serialises. */
  datatype LibraryReference = LibraryReference(libraryId: string, developmentMode: bool,
                                               version: string, userSymbol: string)

  function CopyLibraryReference(item: DeploymentItem): (r: LibraryReference)
    ensures r.libraryId == item.deployment.projectId
    ensures r.developmentMode <==> item.deployment.versionNumber.None?
    ensures r.userSymbol == UserSymbol(item.project.name)
  {
    var version := match item.deployment.versionNumber
      case Some(n) => IntToDecimal(n)
      case None => "0";
    LibraryReference(item.ProjectId(), item.deployment.versionNumber.None?, version,
                     UserSymbol(item.project.name))
  }

  /**
   * A reference to the head deployment is in development mode with version
   * `0`; any other carries the decimal text of the deployment's version
   * number, which reads back as that number. The library id is the
   * deployment's script id.
   */
  lemma LibraryReferenceVersion(item: DeploymentItem)
    ensures var r := CopyLibraryReference(item);
            && (r.developmentMode <==> item.deployment.versionNumber.None?)
            && (r.developmentMode ==> r.version == "0")
            && (!r.developmentMode ==> r.version == IntToDecimal(item.deployment.versionNumber.value))
            && (!r.developmentMode ==> ParseDecimal(r.version) == item.deployment.versionNumber)
            && r.libraryId == item.deployment.projectId
            && r.userSymbol == UserSymbol(item.project.name)
  {
    if item.deployment.versionNumber.Some? {
      DecimalRoundTrip(item.deployment.versionNumber.value);
    }
  }

  /**
   * For a deployment as the client maps it: the version is `0` exactly in
   * development mode, development mode covers both a missing version number
   * and version 0, and the library id is the API's script id.
   */
  lemma MappedDeploymentReference(raw: ApiDeployment, project: Project, state: TreeItemCollapsibleState)
    ensures var r := CopyLibraryReference(DeploymentItem(MapDeployment(raw), project, state));
            && (r.version == "0" <==> r.developmentMode)
            && (r.developmentMode <==> raw.versionNumber.None? || raw.versionNumber == W.Some(0))
            && r.libraryId == raw.scriptId
  {
    var d := MapDeployment(raw);
    if d.versionNumber.Some? {
      DecimalInjective(d.versionNumber.value, 0);
    }
  }

  // ---------------------------------------------------------------- getChildren

  function ProjectNodes(projects: seq<Project>): (nodes: seq<DependencyElement>)
    ensures |nodes| == |projects|
    ensures forall i :: 0 <= i < |projects| ==>
              nodes[i] == ProjectNode(ProjectItem(projects[i], TreeItemCollapsibleState.Collapsed))
  {
    if projects == [] then []
    else [ProjectNode(ProjectItem(projects[0], TreeItemCollapsibleState.Collapsed))] + ProjectNodes(projects[1..])
  }

  function DeploymentNodes(deployments: seq<Deployment>, project: Project): (nodes: seq<DependencyElement>)
    ensures |nodes| == |deployments|
    ensures forall i :: 0 <= i < |deployments| ==>
              nodes[i] == DeploymentNode(DeploymentItem(deployments[i], project, TreeItemCollapsibleState.None))
  {
    if deployments == [] then []
    else
      [DeploymentNode(DeploymentItem(deployments[0], project, TreeItemCollapsibleState.None))]
      + DeploymentNodes(deployments[1..], project)
  }

  /**
   * getChildren: below a project item, one leaf per deployment the client
   * returns for the item's id; anywhere else (the root), one collapsed item
   * per project. The client calls are the parameters `projects` and
   * `deploymentsOf`.
   */
  function GetChildren(element: W.Option<DependencyElement>, projects: seq<Project>,
                       deploymentsOf: string -> seq<Deployment>): (children: seq<DependencyElement>)
    ensures element.Some? && element.value.ProjectNode? ==>
              |children| == |deploymentsOf(element.value.projectItem.project.id)|
              && forall e <- children :: e.DeploymentNode?
    ensures !(element.Some? && element.value.ProjectNode?) ==>
              |children| == |projects| && forall e <- children :: e.ProjectNode?
  {
    match element
    case Some(ProjectNode(item)) => DeploymentNodes(deploymentsOf(item.Id()), item.project)
    case _ => ProjectNodes(projects)
  }

  /**
   * The root shows the projects in order as collapsed project items labelled
   * with their names; a project item's children are its deployments in order,
   * as leaves labelled with the version identity.
   */
  lemma ChildrenShape(projects: seq<Project>, deploymentsOf: string -> seq<Deployment>, k: nat)
    requires k < |projects|
    ensures var roots := GetChildren(W.None, projects, deploymentsOf);
            && |roots| == |projects|
            && roots[k].ProjectNode?
            && roots[k].projectItem.Label() == projects[k].name
            && roots[k].projectItem.collapsibleState == TreeItemCollapsibleState.Collapsed
            && var leaves := GetChildren(W.Some(roots[k]), projects, deploymentsOf);
               var ds := deploymentsOf(projects[k].id);
               && |leaves| == |ds|
               && forall i :: 0 <= i < |ds| ==>
                    && leaves[i].DeploymentNode?
                    && leaves[i].deploymentItem.Label() == ds[i].versionIdentity
                    && leaves[i].deploymentItem.Id() == ds[i].id
                    && leaves[i].deploymentItem.project == projects[k]
                    && leaves[i] == DeploymentNode(DeploymentItem(ds[i], projects[k], TreeItemCollapsibleState.None))
                    && leaves[i].deploymentItem.collapsibleState == TreeItemCollapsibleState.None
  {
  }

  /**
   * When the client returns only deployments of the project asked for, every
   * library reference copied from a project's children points at that project.
   */
  lemma ChildReferencesPointAtProject(item: ProjectItem, projects: seq<Project>,
                                      deploymentsOf: string -> seq<Deployment>)
    requires forall d <- deploymentsOf(item.project.id) :: d.projectId == item.project.id
    ensures forall e <- GetChildren(W.Some(ProjectNode(item)), projects, deploymentsOf) ::
              e.DeploymentNode? && CopyLibraryReference(e.deploymentItem).libraryId == item.project.id
  {
  }
}

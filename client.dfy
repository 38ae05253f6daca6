/**
 * The `clasp`-backed client (src/client.ts): the parser of `clasp list
 * --noShorten` output, the script-URL id extractor, and the mapping from the
 * Apps Script API's deployment records to `Deployment` values. The command
 * run and the API call are not modelled; their results are the inputs here.
 */
module Client {
  import opened Wrappers
  import opened JsStrings

  datatype Project = Project(name: string, id: string, url: string)

  datatype Deployment = Deployment(
    id: string,
    projectId: string,
    description: Option<string>,
    versionNumber: Option<int>,
    versionIdentity: string)

  /**
   * A deployment as `script.projects.deployments.list` returns it: the
   * deployment id, and the `deploymentConfig` fields the client reads. An
   * absent `deploymentConfig` shows as absent `description` and
   * `versionNumber`.
   */
  datatype ApiDeployment = ApiDeployment(
    deploymentId: string,
    scriptId: string,
    description: Option<string>,
    versionNumber: Option<int>)

  // ---------------------------------------------------------------------
  // getIdFromUrl: /https?:\/\/script\.google\.com\/d\/([^\/]+)\/edit/
  // ---------------------------------------------------------------------

  const HttpsPrefix: string := "https://script.google.com/d/"
  const HttpPrefix: string := "http://script.google.com/d/"
  const EditSuffix: string := "/edit"

  /** The pattern matches `s` at index `i` with `id` as its captured group. */
  ghost predicate IsMatchAt(s: string, i: nat, id: string) {
    && id != [] && '/' !in id
    && (|| StartsWithAt(s, i, HttpsPrefix + id + EditSuffix)
        || StartsWithAt(s, i, HttpPrefix + id + EditSuffix))
  }

  /** The pattern matches at no index in `[from, to)`. */
  ghost predicate NoMatchBetween(s: string, from: nat, to: nat) {
    forall j: nat, id :: from <= j < to ==> !IsMatchAt(s, j, id)
  }

  /** `k` is the leftmost index at or after `from` where the pattern matches, capturing `id`. */
  ghost predicate FirstMatch(s: string, from: nat, k: nat, id: string) {
    from <= k && IsMatchAt(s, k, id) && NoMatchBetween(s, from, k)
  }

  /** The end of the greedy run `[^/]*` that starts at `j`. */
  function RunEnd(s: string, j: nat): (k: nat)
    requires j <= |s|
    decreases |s| - j
    ensures j <= k <= |s| && '/' !in s[j..k] && (k == |s| || s[k] == '/')
  {
    if j == |s| || s[j] == '/' then j
    else
      var k := RunEnd(s, j + 1);
      assert s[j..k] == [s[j]] + s[j + 1..k];
      k
  }

  lemma {:induction false} RunEndAt(s: string, j: nat, k: nat)
    requires j <= k < |s| && '/' !in s[j..k] && s[k] == '/'
    ensures RunEnd(s, j) == k
    decreases k - j
  {
    if j < k {
      assert s[j] == s[j..k][0];
      assert s[j + 1..k] == s[j..k][1..];
      RunEndAt(s, j + 1, k);
    }
  }

  /**
   * One attempt of the pattern at index `i`, as a backtracking matcher runs
   * it: `https?` tries the `s` first, `[^/]+` takes the longest run of
   * non-slash characters, and `/edit` must follow that run.
   */
  function MatchAt(s: string, i: nat): (r: Option<string>)
    requires i <= |s|
    ensures r.Some? ==> r.value != [] && '/' !in r.value
    ensures r.Some? ==> i + |HttpPrefix| + |r.value| + |EditSuffix| <= |s|
  {
    var afterPrefix: Option<nat> :=
      if StartsWithAt(s, i, HttpsPrefix) then Some(i + |HttpsPrefix|)
      else if StartsWithAt(s, i, HttpPrefix) then Some(i + |HttpPrefix|)
      else None;
    match afterPrefix
    case None => None
    case Some(j) =>
      var k := RunEnd(s, j);
      if j < k && StartsWithAt(s, k, EditSuffix) then Some(s[j..k]) else None
  }

  /** A URL cannot start with both prefixes at one index. */
  lemma PrefixesExclusive(s: string, i: nat)
    ensures !(StartsWithAt(s, i, HttpsPrefix) && StartsWithAt(s, i, HttpPrefix))
  {
    if i + |HttpPrefix| <= |s| {
      assert s[i..i + |HttpPrefix|][4] == s[i + 4];
    }
    if i + |HttpsPrefix| <= |s| {
      assert s[i..i + |HttpsPrefix|][4] == s[i + 4];
    }
  }

  /** What `MatchAt` finds is a match of the pattern. */
  lemma MatchAtSound(s: string, i: nat)
    requires i <= |s| && MatchAt(s, i).Some?
    ensures IsMatchAt(s, i, MatchAt(s, i).value)
  {
    var id := MatchAt(s, i).value;
    var p := if StartsWithAt(s, i, HttpsPrefix) then HttpsPrefix else HttpPrefix;
    var j := i + |p|;
    var k := RunEnd(s, j);
    assert id == s[j..k];
    assert StartsWithAt(s, j, id);
    StartsWithConcat(s, i, p, id);
    StartsWithConcat(s, i, p + id, EditSuffix);
  }

  /** A match of the pattern at `i` is what `MatchAt` finds there. */
  lemma MatchAtComplete(s: string, i: nat, id: string)
    requires IsMatchAt(s, i, id)
    ensures i <= |s| && MatchAt(s, i) == Some(id)
  {
    var p := if StartsWithAt(s, i, HttpsPrefix + id + EditSuffix) then HttpsPrefix else HttpPrefix;
    assert StartsWithAt(s, i, p + id + EditSuffix);
    StartsWithConcat(s, i, p + id, EditSuffix);
    StartsWithConcat(s, i, p, id);
    var j := i + |p|;
    var k := j + |id|;
    assert s[j..k] == id;
    assert s[k] == s[k..k + |EditSuffix|][0] == '/';
    RunEndAt(s, j, k);
    PrefixesExclusive(s, i);
  }

  /** `MatchAt` is exactly the pattern, tried at one index. */
  lemma MatchAtSpec(s: string, i: nat, id: string)
    requires i <= |s|
    ensures MatchAt(s, i) == Some(id) <==> IsMatchAt(s, i, id)
  {
    if MatchAt(s, i) == Some(id) {
      MatchAtSound(s, i);
    }
    if IsMatchAt(s, i, id) {
      MatchAtComplete(s, i, id);
    }
  }

  /** At one index the pattern captures at most one id. */
  lemma MatchUnique(s: string, i: nat, a: string, b: string)
    requires IsMatchAt(s, i, a) && IsMatchAt(s, i, b)
    ensures a == b
  {
    assert i <= |s|;
    MatchAtSpec(s, i, a);
    MatchAtSpec(s, i, b);
  }

  /** The matcher tried at `i`, `i + 1`, ... until it succeeds. */
  function SearchFrom(s: string, i: nat): (r: Option<string>)
    requires i <= |s|
    decreases |s| - i
    ensures r.Some? ==> r.value != [] && '/' !in r.value
    ensures r.Some? ==> |HttpPrefix| + |r.value| + |EditSuffix| <= |s|
  {
    var m := MatchAt(s, i);
    if m.Some? then m
    else if i == |s| then None
    else SearchFrom(s, i + 1)
  }

  lemma {:induction false} SearchFromSound(s: string, i: nat) returns (k: nat)
    requires i <= |s| && SearchFrom(s, i).Some?
    ensures FirstMatch(s, i, k, SearchFrom(s, i).value)
    decreases |s| - i
  {
    var m := MatchAt(s, i);
    if m.Some? {
      MatchAtSpec(s, i, m.value);
      k := i;
    } else {
      k := SearchFromSound(s, i + 1);
      forall id | true
        ensures !IsMatchAt(s, i, id)
      {
        MatchAtSpec(s, i, id);
      }
    }
  }

  lemma {:induction false} SearchFromComplete(s: string, i: nat, k: nat, id: string)
    requires i <= k && IsMatchAt(s, k, id)
    ensures i <= |s| && SearchFrom(s, i).Some?
    decreases k - i
  {
    if MatchAt(s, i).None? {
      if i == k {
        MatchAtSpec(s, i, id);
      } else {
        SearchFromComplete(s, i + 1, k, id);
      }
    }
  }

  /**
   * getIdFromUrl: the captured group of the leftmost match, if the pattern
   * matches anywhere in `url` (the group is never empty, so the truthiness
   * test on it never rejects a match).
   */
  function GetIdFromUrl(url: string): (id: Option<string>)
    ensures id.Some? ==> id.value != [] && '/' !in id.value
    ensures id.Some? ==> |HttpPrefix| + |id.value| + |EditSuffix| <= |url|
  {
    var m := SearchFrom(url, 0);
    if m.Some? && m.value != [] then m else None
  }

  /** The id returned is the one captured at the leftmost match, and only that. */
  lemma GetIdFromUrlLeftmost(url: string, id: string)
    ensures GetIdFromUrl(url) == Some(id) <==> exists k :: FirstMatch(url, 0, k, id)
  {
    if GetIdFromUrl(url) == Some(id) {
      var k := SearchFromSound(url, 0);
    }
    if k: nat :| FirstMatch(url, 0, k, id) {
      SearchFromComplete(url, 0, k, id);
      var k' := SearchFromSound(url, 0);
      var id' := SearchFrom(url, 0).value;
      if k == k' {
        MatchUnique(url, k, id, id');
      }
    }
  }

  /** An id is found exactly when the pattern matches somewhere. */
  lemma GetIdFromUrlFound(url: string)
    ensures GetIdFromUrl(url).Some? <==> exists k: nat, id :: IsMatchAt(url, k, id)
  {
    if GetIdFromUrl(url).Some? {
      var k := SearchFromSound(url, 0);
    }
    if k: nat, id :| IsMatchAt(url, k, id) {
      SearchFromComplete(url, 0, k, id);
    }
  }

  // ---------------------------------------------------------------------
  // getProjects: the lines of `clasp list --noShorten` output.
  // ---------------------------------------------------------------------

  const LineSeparator: string := "\n"
  const FieldSeparator: string := " - "

  /**
   * One line of the listing: `const [name, url] = line.split(' - ')`, kept
   * when both fields are non-empty and the URL yields an id.
   */
  function LineToProject(line: string): (p: Option<Project>)
    ensures p.Some? ==> p.value.name != "" && p.value.url != ""
    ensures p.Some? ==> GetIdFromUrl(p.value.url) == Some(p.value.id)
    ensures p.Some? ==> var fields := Split(line, FieldSeparator);
                        |fields| >= 2 && p.value.name == fields[0] && p.value.url == fields[1]
  {
    FieldsToProject(Split(line, FieldSeparator))
  }

  /** The project named by the first two fields of a line, if it is kept. */
  function FieldsToProject(fields: seq<string>): Option<Project>
    requires |fields| >= 1
  {
    var name := fields[0];
    if |fields| >= 2 && name != "" && fields[1] != "" then
      var url := fields[1];
      match GetIdFromUrl(url)
      case Some(id) => Some(Project(name, id, url))
      case None => None
    else
      None
  }

  /**
   * The values `f` gives, in order, for the elements it does not reject: what
   * a loop that pushes `f(x)` whenever it is defined accumulates.
   */
  function FilterMap<A, B>(xs: seq<A>, f: A -> Option<B>): (ys: seq<B>)
    ensures |ys| <= |xs|
  {
    if xs == [] then []
    else
      var kept := match f(xs[|xs| - 1]) case Some(y) => [y] case None => [];
      FilterMap(xs[..|xs| - 1], f) + kept
  }

  /**
   * `FilterMap` keeps order: each output comes from its own input, at
   * increasing positions, and every input `f` accepts is used.
   */
  lemma {:induction false} FilterMapOrigin<A, B>(xs: seq<A>, f: A -> Option<B>) returns (origin: seq<nat>)
    ensures |origin| == |FilterMap(xs, f)|
    ensures forall k :: 0 <= k < |origin| ==>
              origin[k] < |xs| && f(xs[origin[k]]) == Some(FilterMap(xs, f)[k])
    ensures forall k, l :: 0 <= k < l < |origin| ==> origin[k] < origin[l]
    ensures forall j :: 0 <= j < |xs| && f(xs[j]).Some? ==> j in origin
  {
    if xs == [] {
      origin := [];
    } else {
      var n := |xs| - 1;
      var init := xs[..n];
      var prefix := FilterMapOrigin(init, f);
      var ys := FilterMap(init, f);
      assert forall j :: 0 <= j < n ==> init[j] == xs[j];
      if f(xs[n]).Some? {
        assert FilterMap(xs, f) == ys + [f(xs[n]).value];
        origin := prefix + [n];
      } else {
        assert FilterMap(xs, f) == ys;
        origin := prefix;
      }
    }
  }

  /** The projects the lines yield, in line order. */
  function ProjectsFromLines(lines: seq<string>): seq<Project> {
    FilterMap(lines, LineToProject)
  }

  /** The projects `clasp list` output yields: its `\n`-separated lines, parsed. */
  function ProjectsFromOutput(output: string): seq<Project> {
    ProjectsFromLines(Split(output, LineSeparator))
  }

  /** getProjects, from the command's standard output on. */
  method GetProjects(output: string) returns (projects: seq<Project>)
    ensures projects == ProjectsFromOutput(output)
  {
    var lines := Split(output, LineSeparator);
    projects := [];
    for i := 0 to |lines|
      invariant projects == ProjectsFromLines(lines[..i])
    {
      var line := lines[i];
      assert lines[..i + 1][..i] == lines[..i];
      assert ProjectsFromLines(lines[..i + 1]) ==
        projects + match LineToProject(line) case Some(p) => [p] case None => [];
      var fields := Split(line, FieldSeparator);
      var name := fields[0];
      if |fields| >= 2 && name != "" && fields[1] != "" {
        var url := fields[1];
        var id := GetIdFromUrl(url);
        if id.Some? {
          projects := projects + [Project(name, id.value, url)];
        }
      }
    }
    assert lines[..|lines|] == lines;
  }

  /**
   * Every parsed project has a non-empty name and URL and the id the URL
   * yields, and there are at most as many projects as lines.
   */
  lemma ParsedProjectsWellFormed(lines: seq<string>)
    ensures |ProjectsFromLines(lines)| <= |lines|
    ensures forall p <- ProjectsFromLines(lines) ::
              p.name != "" && p.url != "" && GetIdFromUrl(p.url) == Some(p.id)
  {
    var ps := ProjectsFromLines(lines);
    var origin := FilterMapOrigin(lines, LineToProject);
    forall p <- ps
      ensures p.name != "" && p.url != "" && GetIdFromUrl(p.url) == Some(p.id)
    {
      var k :| 0 <= k < |ps| && ps[k] == p;
      assert LineToProject(lines[origin[k]]) == Some(p);
    }
  }

  /**
   * The parsed projects keep the order of their lines: each comes from its
   * own line, at increasing line numbers, and no line that yields a project
   * is skipped.
   */
  lemma ProjectsKeepLineOrder(lines: seq<string>) returns (origin: seq<nat>)
    ensures |origin| == |ProjectsFromLines(lines)|
    ensures forall k :: 0 <= k < |origin| ==>
              origin[k] < |lines| && LineToProject(lines[origin[k]]) == Some(ProjectsFromLines(lines)[k])
    ensures forall k, l :: 0 <= k < l < |origin| ==> origin[k] < origin[l]
    ensures forall j :: 0 <= j < |lines| && LineToProject(lines[j]).Some? ==> j in origin
  {
    origin := FilterMapOrigin(lines, LineToProject);
  }

  /** A line without the field separator is dropped. */
  lemma LineWithoutSeparatorDropped(line: string)
    requires NoOccurrence(line, FieldSeparator, 0, |line|)
    ensures LineToProject(line) == None
  {
    SplitWhole(line, FieldSeparator);
  }

  /** `name - url` splits into exactly its two fields. */
  lemma SplitPair(name: string, url: string)
    requires SepFree(name, FieldSeparator) && SepFree(url, FieldSeparator)
    ensures Split(name + FieldSeparator + url, FieldSeparator) == [name, url]
  {
    SepFreeHasNoOccurrence(url, FieldSeparator);
    SplitWhole(url, FieldSeparator);
    SplitCons(name, FieldSeparator, url);
  }

  /** `name - url - rest` splits into the two fields followed by the fields of `rest`. */
  lemma SplitPairAndRest(name: string, url: string, rest: string)
    requires SepFree(name, FieldSeparator) && SepFree(url, FieldSeparator)
    ensures Split(name + FieldSeparator + url + FieldSeparator + rest, FieldSeparator)
            == [name, url] + Split(rest, FieldSeparator)
  {
    var tail := url + FieldSeparator + rest;
    assert name + FieldSeparator + url + FieldSeparator + rest == name + FieldSeparator + tail;
    SplitCons(url, FieldSeparator, rest);
    SplitCons(name, FieldSeparator, tail);
  }

  /**
   * A `name - url` line is kept exactly when both fields are non-empty and
   * the URL yields an id, and then the project is made of those two fields.
   */
  lemma LineKeptIff(name: string, url: string)
    requires SepFree(name, FieldSeparator) && NoOccurrence(url, FieldSeparator, 0, |url|)
    ensures LineToProject(name + FieldSeparator + url)
            == if name != "" && url != "" && GetIdFromUrl(url).Some?
               then Some(Project(name, GetIdFromUrl(url).value, url))
               else None
  {
    SplitWhole(url, FieldSeparator);
    SplitCons(name, FieldSeparator, url);
    assert Split(name + FieldSeparator + url, FieldSeparator) == [name, url];
  }

  /** Fields after the second ` - ` do not change the line's project. */
  lemma ExtraFieldsIgnored(name: string, url: string, rest: string)
    requires SepFree(name, FieldSeparator) && SepFree(url, FieldSeparator)
    ensures LineToProject(name + FieldSeparator + url + FieldSeparator + rest)
            == LineToProject(name + FieldSeparator + url)
  {
    SplitPair(name, url);
    SplitPairAndRest(name, url, rest);
    var longFields := [name, url] + Split(rest, FieldSeparator);
    assert longFields[0] == name && longFields[1] == url;
  }

  // ---------------------------------------------------------------------
  // The listing format, as the parser reads it back.
  // ---------------------------------------------------------------------

  /** A project the listing can show on one line and the parser reads back. */
  ghost predicate Listable(p: Project) {
    && p.name != "" && SepFree(p.name, FieldSeparator) && '\n' !in p.name
    && NoOccurrence(p.url, FieldSeparator, 0, |p.url|) && '\n' !in p.url
    && GetIdFromUrl(p.url) == Some(p.id)
  }

  /** The line `clasp list --noShorten` prints for a project. */
  function ListLine(p: Project): string {
    p.name + FieldSeparator + p.url
  }

  function ListLines(ps: seq<Project>): (lines: seq<string>)
    ensures |lines| == |ps|
    ensures forall i :: 0 <= i < |ps| ==> lines[i] == ListLine(ps[i])
  {
    if ps == [] then [] else ListLines(ps[..|ps| - 1]) + [ListLine(ps[|ps| - 1])]
  }

  function ListOutput(ps: seq<Project>): string {
    Join(ListLines(ps), LineSeparator)
  }

  /** The parser reads a listed project's line back as that project. */
  lemma ListedLineParses(p: Project)
    requires Listable(p)
    ensures LineToProject(ListLine(p)) == Some(p)
  {
    SplitCons(p.name, FieldSeparator, p.url);
    SplitWhole(p.url, FieldSeparator);
    assert Split(ListLine(p), FieldSeparator) == [p.name, p.url];
  }

  /** `FilterMap` keeps everything when `f` accepts every element. */
  lemma {:induction false} FilterMapAllKept<A, B>(xs: seq<A>, f: A -> Option<B>, ys: seq<B>)
    requires |xs| == |ys| && forall i :: 0 <= i < |xs| ==> f(xs[i]) == Some(ys[i])
    ensures FilterMap(xs, f) == ys
  {
    if xs != [] {
      var n := |xs| - 1;
      FilterMapAllKept(xs[..n], f, ys[..n]);
      assert ys == ys[..n] + [ys[n]];
    }
  }

  lemma ListedLinesParse(ps: seq<Project>)
    requires forall p <- ps :: Listable(p)
    ensures ProjectsFromLines(ListLines(ps)) == ps
  {
    var lines := ListLines(ps);
    forall i | 0 <= i < |lines|
      ensures LineToProject(lines[i]) == Some(ps[i])
    {
      ListedLineParses(ps[i]);
    }
    FilterMapAllKept(lines, LineToProject, ps);
  }

  /** Round trip: parsing the listing of projects gives back those projects. */
  lemma ListOutputRoundTrip(ps: seq<Project>)
    requires forall p <- ps :: Listable(p)
    ensures ProjectsFromOutput(ListOutput(ps)) == ps
  {
    var lines := ListLines(ps);
    if ps == [] {
      SplitWhole("", LineSeparator);
      SplitWhole("", FieldSeparator);
      assert ProjectsFromLines([""]) == ProjectsFromLines([]) + [];
    } else {
      forall i | 0 <= i < |lines|
        ensures SepFree(lines[i], LineSeparator)
      {
        var p := ps[i];
        assert Listable(p);
        assert lines[i] == p.name + FieldSeparator + p.url;
        assert '\n' !in FieldSeparator;
        SepFreeSingleChar(lines[i], '\n');
      }
      SplitJoin(lines, LineSeparator);
      ListedLinesParse(ps);
    }
  }

  // ---------------------------------------------------------------------
  // getDeployments: the API's deployment records as `Deployment` values.
  // ---------------------------------------------------------------------

  /**
   * One record: `description || undefined`, `versionNumber || undefined`,
   * and `versionIdentity` built from `versionNumber?.toString() || 'HEAD'`.
   */
  function MapDeployment(raw: ApiDeployment): (d: Deployment)
    ensures d.id == raw.deploymentId && d.projectId == raw.scriptId
    ensures |d.versionIdentity| >= 2 && d.versionIdentity[0] == '@'
  {
    var shown: Option<string> :=
      match raw.versionNumber case Some(n) => Some(IntToDecimal(n)) case None => None;
    Deployment(
      raw.deploymentId,
      raw.scriptId,
      if raw.description.Some? && raw.description.value != "" then raw.description else None,
      if raw.versionNumber.Some? && raw.versionNumber.value != 0 then raw.versionNumber else None,
      "@" + if shown.Some? && shown.value != "" then shown.value else "HEAD")
  }

  /**
   * The version fields: a non-zero number is kept and printed after `@`;
   * no number gives `@HEAD`; a number of 0 is dropped yet printed as `@0`.
   */
  lemma MappedVersion(raw: ApiDeployment)
    ensures var d := MapDeployment(raw);
      && (raw.versionNumber.None? ==> d.versionNumber.None? && d.versionIdentity == "@HEAD")
      && (raw.versionNumber.Some? && raw.versionNumber.value != 0 ==>
            d.versionNumber == raw.versionNumber
            && d.versionIdentity == "@" + IntToDecimal(raw.versionNumber.value)
            && |d.versionIdentity| >= 2 && d.versionIdentity[0] == '@'
            && ParseDecimal(d.versionIdentity[1..]) == raw.versionNumber)
      && (raw.versionNumber == Some(0) ==> d.versionNumber.None? && d.versionIdentity == "@0")
  {
    match raw.versionNumber
    case None =>
    case Some(n) =>
      var d := MapDeployment(raw);
      assert d.versionIdentity == "@" + IntToDecimal(n);
      assert d.versionIdentity[1..] == IntToDecimal(n);
      DecimalRoundTrip(n);
      DecimalInjective(n, 0);
  }

  /** The identity is `@HEAD` exactly when the record has no version number. */
  lemma HeadIdentityIffNoVersion(raw: ApiDeployment)
    ensures MapDeployment(raw).versionIdentity == "@HEAD" <==> raw.versionNumber.None?
  {
    if raw.versionNumber.Some? {
      var s := IntToDecimal(raw.versionNumber.value);
      assert MapDeployment(raw).versionIdentity == "@" + s;
      assert ("@" + s)[1..] == s;
      assert "@HEAD"[1..] == "HEAD";
    }
  }

  /**
   * `versionIdentity` and `versionNumber` agree (`@HEAD` exactly when the
   * number is absent) unless the record's version number is 0.
   */
  lemma IdentityAgreesUnlessZero(raw: ApiDeployment)
    ensures var d := MapDeployment(raw);
      (d.versionIdentity == "@HEAD" <==> d.versionNumber.None?) <==> raw.versionNumber != Some(0)
  {
    HeadIdentityIffNoVersion(raw);
  }

  /** An empty description becomes absent; any other one is copied. */
  lemma MappedDescription(raw: ApiDeployment)
    ensures var d := MapDeployment(raw);
      && (d.description.None? <==> raw.description.None? || raw.description == Some(""))
      && (d.description.Some? ==> d.description == raw.description && d.description.value != "")
  {
  }

  function MapDeployments(raws: seq<ApiDeployment>): (ds: seq<Deployment>)
    ensures |ds| == |raws|
    ensures forall i :: 0 <= i < |raws| ==> ds[i] == MapDeployment(raws[i])
  {
    if raws == [] then [] else [MapDeployment(raws[0])] + MapDeployments(raws[1..])
  }

  /**
   * getDeployments, from the API's response on: a missing list is empty;
   * otherwise one deployment per record, in order, ids copied.
   */
  function GetDeployments(list: Option<seq<ApiDeployment>>): (ds: seq<Deployment>)
    ensures list.None? ==> ds == []
    ensures list.Some? ==> |ds| == |list.value|
    ensures list.Some? ==> forall i :: 0 <= i < |ds| ==>
              && ds[i] == MapDeployment(list.value[i])
              && ds[i].id == list.value[i].deploymentId
              && ds[i].projectId == list.value[i].scriptId
  {
    match list
    case None => []
    case Some(raws) => MapDeployments(raws)
  }
}

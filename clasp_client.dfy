/**
 * The googleapis-backed client (src/clients/claspClient.ts): projects come
 * from a Drive file listing instead of `clasp list`. Its deployment mapping
 * is the same text as the `clasp` client's and is `Client.GetDeployments`.
 * The Drive call itself is not modelled; its status and files are inputs.
 */
module ClaspClient {
  import opened Wrappers
  import opened JsStrings
  import opened Client

  /** A file of `drive.files.list`, with the two fields the client reads. */
  datatype DriveFile = DriveFile(id: string, name: string)

  /** The editor URL built for a script id: `https://script.google.com/d/${id}/edit`. */
  function ProjectUrl(id: string): (url: string)
    ensures |url| == |HttpsPrefix| + |id| + |EditSuffix|
    ensures url[..|HttpsPrefix|] == HttpsPrefix
    ensures url[|HttpsPrefix|..|HttpsPrefix| + |id|] == id
    ensures url[|HttpsPrefix| + |id|..] == EditSuffix
  {
    "https://script.google.com/d/" + id + "/edit"
  }

  function FilesToProjects(files: seq<DriveFile>): (ps: seq<Project>)
    ensures |ps| == |files|
    ensures forall i :: 0 <= i < |files| ==>
              ps[i] == Project(files[i].name, files[i].id, ProjectUrl(files[i].id))
  {
    if files == [] then []
    else
      var f := files[0];
      [Project(f.name, f.id, ProjectUrl(f.id))] + FilesToProjects(files[1..])
  }

  /**
   * getProjects, from the Drive response on: a status other than 200 throws
   * `Error fetching projects: <status>`; otherwise one project per file, in
   * order, and a missing file list counts as empty.
   */
  function ListProjects(status: int, files: Option<seq<DriveFile>>): (r: Result<seq<Project>, string>)
    ensures r.Failure? <==> status != 200
    ensures r.Failure? ==> r.error == "Error fetching projects: " + IntToDecimal(status)
    ensures r.Success? && files.None? ==> r.value == []
    ensures r.Success? && files.Some? ==>
              && |r.value| == |files.value|
              && forall i :: 0 <= i < |files.value| ==>
                   && r.value[i].id == files.value[i].id
                   && r.value[i].name == files.value[i].name
                   && r.value[i].url == "https://script.google.com/d/" + files.value[i].id + "/edit"
  {
    var listed := match files case Some(fs) => fs case None => [];
    if status != 200 then
      Failure("Error fetching projects: " + IntToDecimal(status))
    else
      Success(FilesToProjects(listed))
  }

  /** Round trip: the id extractor reads back the id this URL was built from. */
  lemma UrlRoundTrip(id: string)
    requires id != "" && '/' !in id
    ensures GetIdFromUrl(ProjectUrl(id)) == Some(id)
  {
    var url := ProjectUrl(id);
    assert url == HttpsPrefix + id + EditSuffix;
    assert StartsWithAt(url, 0, HttpsPrefix + id + EditSuffix) by {
      assert url[0..|url|] == url;
    }
    MatchAtComplete(url, 0, id);
    assert SearchFrom(url, 0) == Some(id);
  }

  /** A file whose project the `clasp list` listing shows and reads back. */
  ghost predicate ListableFile(f: DriveFile) {
    && f.name != "" && SepFree(f.name, FieldSeparator) && '\n' !in f.name
    && f.id != "" && '/' !in f.id && ' ' !in f.id && '\n' !in f.id
  }

  lemma ListableFileProject(f: DriveFile)
    requires ListableFile(f)
    ensures Listable(Project(f.name, f.id, ProjectUrl(f.id)))
  {
    var url := ProjectUrl(f.id);
    assert ' ' !in "https://script.google.com/d/" && ' ' !in "/edit";
    assert '\n' !in "https://script.google.com/d/" && '\n' !in "/edit";
    assert ' ' !in url && '\n' !in url;
    NoOccurrenceWithoutHead(url, FieldSeparator);
    UrlRoundTrip(f.id);
  }

  /**
   * The two clients agree: listing the projects built from Drive files in
   * the `clasp list` format and parsing that output gives the same projects.
   */
  lemma DriveListingRoundTrip(files: seq<DriveFile>)
    requires forall f <- files :: ListableFile(f)
    ensures ListProjects(200, Some(files)).Success?
    ensures var ps := ListProjects(200, Some(files)).value;
            ProjectsFromOutput(ListOutput(ps)) == ps
  {
    var ps := ListProjects(200, Some(files)).value;
    forall p <- ps
      ensures Listable(p)
    {
      var i :| 0 <= i < |ps| && ps[i] == p;
      ListableFileProject(files[i]);
    }
    ListOutputRoundTrip(ps);
  }
}

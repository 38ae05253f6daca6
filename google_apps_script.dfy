/**
 * The domain types of src/domain/googleAppsScript.ts: a deployment is either
 * pinned to a version or the head deployment, and `isHeadDeployment` tells
 * the two apart by the version identity alone.
 */
module GoogleAppsScript {
  import opened Wrappers
  import opened JsStrings
  import Client

  /** The template-literal type `@${string}`. */
  type AtIdentity = s: string | |s| >= 1 && s[0] == '@' witness "@"

  /** The identity every head deployment carries. */
  const HeadIdentity: AtIdentity := "@HEAD"

  /** The union of a non-head (versioned) deployment and the head deployment. */
  datatype GoogleAppsScriptDeployment =
    | NonDeployment(id: string, projectId: string, description: Option<string>,
                    versionIdentity: AtIdentity, versionNumber: int)
    | HeadDeployment(id: string, projectId: string)
  {
    /** `versionIdentity`, which the head variant fixes to `@HEAD`. */
    function Identity(): AtIdentity {
      if HeadDeployment? then HeadIdentity else versionIdentity
    }
  }

  /** A version of a script project. */
  datatype GoogleAppsScriptVersion =
    GoogleAppsScriptVersion(projectId: string, description: Option<string>, versionNumber: int)

  /** `isHeadDeployment`: compares the identity with `@HEAD`. */
  predicate IsHeadDeployment(d: GoogleAppsScriptDeployment)
    ensures d.HeadDeployment? ==> IsHeadDeployment(d)
  {
    d.Identity() == HeadIdentity
  }

  /**
   * The guard accepts every head deployment, and a versioned one exactly when
   * its identity is the literal `@HEAD` (which `@${string}` does not exclude).
   */
  lemma IsHeadDeploymentCases(d: GoogleAppsScriptDeployment)
    ensures d.HeadDeployment? ==> IsHeadDeployment(d)
    ensures d.NonDeployment? ==> (IsHeadDeployment(d) <==> d.versionIdentity == "@HEAD")
  {
  }

  /** The classification depends on nothing but the identity. */
  lemma IsHeadDeploymentByIdentity(a: GoogleAppsScriptDeployment, b: GoogleAppsScriptDeployment)
    requires a.Identity() == b.Identity()
    ensures IsHeadDeployment(a) == IsHeadDeployment(b)
  {
  }

  /** A deployment pinned to version n, shown as `@<n>`, is never taken for head. */
  lemma PinnedDeploymentNotHead(id: string, projectId: string, description: Option<string>, n: int)
    ensures !IsHeadDeployment(NonDeployment(id, projectId, description, "@" + IntToDecimal(n), n))
  {
    var shown := IntToDecimal(n);
    var identity := "@" + shown;
    assert identity[1] == shown[0];
    assert HeadIdentity[1] == 'H';
  }

  /**
   * Where the client's deployments fall in the union: a record without a
   * version number is a head deployment, one with a non-zero number a
   * versioned deployment that the guard does not take for head, and one with
   * version number 0 fits neither (no number, yet an identity of `@0`).
   */
  lemma MappedDeploymentVariant(raw: Client.ApiDeployment)
    ensures var d := Client.MapDeployment(raw);
            && (raw.versionNumber.None? ==>
                  d.versionNumber.None? && d.versionIdentity == HeadDeployment(d.id, d.projectId).Identity())
            && (raw.versionNumber.Some? && raw.versionNumber.value != 0 ==>
                  && d.versionNumber.Some?
                  && !IsHeadDeployment(NonDeployment(d.id, d.projectId, d.description,
                                                     d.versionIdentity, d.versionNumber.value)))
            && (raw.versionNumber == Some(0) ==>
                  d.versionNumber.None? && d.versionIdentity != HeadIdentity)
  {
    var d := Client.MapDeployment(raw);
    Client.MappedVersion(raw);
    if raw.versionNumber.Some? && raw.versionNumber.value != 0 {
      PinnedDeploymentNotHead(d.id, d.projectId, d.description, raw.versionNumber.value);
    }
    if raw.versionNumber == Some(0) {
      assert d.versionIdentity[1] == '0';
      assert HeadIdentity[1] == 'H';
    }
  }
}

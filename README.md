# Google Apps Script projects view, modelled in Dafny

This project models the core of a VS Code extension that shows the user's
Google Apps Script projects in a tree view. The root of the tree lists the
projects. Below each project are its deployments. A deployment item can copy a
library reference (library id, version, development mode, user symbol) to the
clipboard.

There are two clients that fetch the data.

- The `clasp` client parses the text printed by `clasp list --noShorten`:
  - one `name - url` line per project;
  - the script id is extracted from the editor URL.
- The Drive client builds projects from the files of a Drive listing, and
  fails when the response status is not 200.

Both clients map the deployment records of the Apps Script API the same way.
The mapping has several quirks:

- an empty description becomes absent;
- a version number of 0 becomes absent, yet it is still shown as `@0`;
- a deployment without a version is shown as `@HEAD`.

Modules, one file each:

- `Wrappers` (`wrappers.dfy`): `Option` and `Result`.
- `JsStrings` (`js_strings.dfy`): the JavaScript string operations the core relies on:
  - `split` with a non-empty separator, with its inverse `Join`;
  - `indexOf`;
  - `Number.prototype.toString` for integers, with its inverse `ParseDecimal`;
  - the regular-expression class `\s`.
- `Client` (`client.dfy`): `src/client.ts`:
  - the URL id extractor, as an explicit leftmost-match search specified against a declarative matching predicate;
  - the `clasp list` parser, as a method with a loop proved against the function `ProjectsFromOutput`;
  - a formatter for `clasp list` output, which the parser inverts;
  - the deployment mapping.
- `ClaspClient` (`clasp_client.dfy`): `src/clients/claspClient.ts`:
  - the Drive file mapping and its status check;
  - the round trip showing the two clients agree.
- `GoogleAppsScript` (`google_apps_script.dfy`): the deployment union type and `isHeadDeployment`.
- `ProjectsView` (`projects_view.dfy`): `src/view/projectsView.ts`:
  - the tree items and `getChildren`;
  - `copyLibraryReference`, including the user-symbol derivation.

Two behaviours of the code are worth noting:

- `userSymbol` keeps a version tag and only drops its separators: `3-My-App @v1`
  gives `MyAppv1` (`ProjectsView.UserSymbolOfTaggedName`).
- The library id of a copied reference is the deployment's script id
  `item.projectId` (src/view/projectsView.ts:134, 202), not `project.id`. The two
  agree whenever the API returns only the deployments of the project asked for
  (`ProjectsView.ChildReferencesPointAtProject`).

## Model

| member | source | states |
|---|---|---|
| `JsStrings.Split` | src/client.ts:50-53 | JavaScript `split` with a non-empty separator always yields at least one field. Its other properties are stated by `JoinSplit`, `SplitJoin` and `SplitFieldsLackSeparator`. |
| `JsStrings.IntToDecimal` | src/client.ts:75 | `toString` of an integer is non-empty and starts with a digit or `-`. It has no leading zero: a text of two or more characters starts with neither `0` nor `-0`. With `DecimalRoundTrip`, this makes it the canonical decimal text of the number. |
| `JsStrings.IsJsWhitespace` | src/view/projectsView.ts:132 | The `\s` class of a regular expression never matches a digit, `-` or `@`, so the three parts of `[-@\s]` do not overlap. |
| `JsStrings.JoinSplit` | src/client.ts:50 | Joining the pieces of `split` with the separator gives back the original text, so splitting loses nothing. |
| `JsStrings.SplitJoin` | src/client.ts:50 | Splitting the join of separator-free fields gives back exactly those fields, so `Join` is the inverse of `split`. |
| `JsStrings.SplitFieldsLackSeparator` | src/client.ts:53 | No piece produced by `split` contains the separator. |
| `JsStrings.DecimalRoundTrip` | src/client.ts:75 | The decimal text of an integer reads back as that integer. |
| `JsStrings.DecimalInjective` | src/view/projectsView.ts:136 | Distinct integers have distinct decimal texts, and the text is `0` only for 0. |
| `Client.MatchAtSpec` | src/client.ts:81-83 | At a position, the matcher returns an id exactly when the text there is `https://` or `http://`, then `script.google.com/d/`, then that id (non-empty, no `/`), then `/edit`. |
| `Client.SearchFromSound` | src/client.ts:81-83 | The id the search returns belongs to a match, and no match starts earlier. |
| `Client.SearchFromComplete` | src/client.ts:81-83 | Whenever a match exists at or after the start position, the search finds one. |
| `Client.GetIdFromUrl` | src/client.ts:80-87 | An extracted id is non-empty, contains no `/`, and fits inside the URL together with the prefix and `/edit`. |
| `Client.GetIdFromUrlLeftmost` | src/client.ts:80-87 | The extractor returns `id` exactly when the leftmost match anywhere in the URL captures `id`. |
| `Client.GetIdFromUrlFound` | src/client.ts:80-87 | The extractor returns something exactly when the URL contains a match somewhere. |
| `Client.LineToProject` | src/client.ts:53-58 | A kept line gives a project whose name and URL are the line's first two ` - ` fields. Both are non-empty, and the id is the one the extractor reads from that URL. |
| `Client.LineKeptIff` | src/client.ts:53-57 | A `name - url` line is kept exactly when both fields are non-empty and the URL yields an id. It then gives the project with that name, id and URL. Otherwise it is dropped. |
| `Client.GetProjects` | src/client.ts:48-62 | The loop over the lines of the `clasp list` output returns exactly the projects the specification function `ProjectsFromOutput` gives. |
| `Client.ParsedProjectsWellFormed` | src/client.ts:52-60 | There are no more projects than lines, and every project has a non-empty name and URL and the id of its URL. |
| `Client.ProjectsKeepLineOrder` | src/client.ts:52-57 | Each project comes from a distinct line, in increasing line order. Every line that parses contributes its project. |
| `Client.LineWithoutSeparatorDropped` | src/client.ts:53-54 | A line without ` - ` yields no project, since it has no URL. |
| `Client.ExtraFieldsIgnored` | src/client.ts:53 | Fields after the second ` - ` are ignored: the line parses as `name - url` alone. |
| `Client.ListedLinesParse` | src/client.ts:52-60 | Parsing the lines listed for well-formed projects gives back those projects. |
| `Client.ListOutputRoundTrip` | src/client.ts:48-62 | Parsing the `clasp list` output of well-formed projects gives back exactly those projects, in order. |
| `Client.MapDeployment` | src/client.ts:69-77 | One record: the deployment id and script id are copied, and the identity starts with `@` and has at least one more character. `MappedVersion`, `HeadIdentityIffNoVersion`, `IdentityAgreesUnlessZero` and `MappedDescription` state the rest. |
| `Client.MappedVersion` | src/client.ts:73-76 | No version number gives no version and `@HEAD`. A non-zero number is kept, and the identity is `@` followed by its decimal text, which reads back. A number of 0 is dropped but still shown as `@0`. |
| `Client.HeadIdentityIffNoVersion` | src/client.ts:74-76 | The identity is `@HEAD` exactly when the record carries no version number. |
| `Client.IdentityAgreesUnlessZero` | src/client.ts:73-76 | Identity `@HEAD` and an absent version number go together exactly when the record's version number is not 0. |
| `Client.MappedDescription` | src/client.ts:72 | The description is absent exactly when the record's is missing or empty. Otherwise it is copied. |
| `Client.GetDeployments` | src/client.ts:69-77 | A missing list gives no deployments. Otherwise there is one deployment per record, in order, with the deployment id and script id copied. |
| `Client.MapDeployments` | src/clients/claspClient.ts:74-82 | The second client's identical mapping gives one deployment per record, in order, each mapped as above. |
| `ClaspClient.ProjectUrl` | src/clients/claspClient.ts:65 | The URL is the https editor prefix, then the id, then `/edit`. `UrlRoundTrip` shows the extractor reads the id back. |
| `ClaspClient.FilesToProjects` | src/clients/claspClient.ts:62-66 | There is one project per file, in order, with the file's name and id and the editor URL of the id. |
| `ClaspClient.ListProjects` | src/clients/claspClient.ts:58-66 | A status other than 200 fails with `Error fetching projects: <status>`. Otherwise there is one project per file, in order, with the file's id and name and the editor URL of the id. A missing file list gives no projects. |
| `ClaspClient.UrlRoundTrip` | src/clients/claspClient.ts:65 | The id extractor of the `clasp` client reads back the id from the URL this client builds. |
| `ClaspClient.DriveListingRoundTrip` | src/clients/claspClient.ts:62-66 | For well-formed files, listing the Drive client's projects in `clasp list` format and parsing them gives the same projects. The two clients agree. |
| `GoogleAppsScript.IsHeadDeployment` | src/domain/googleAppsScript.ts:31-35 | Every head deployment passes the guard. `IsHeadDeploymentCases` gives the full case split. |
| `GoogleAppsScript.IsHeadDeploymentCases` | src/domain/googleAppsScript.ts:31-35 | Every head deployment passes the guard. A versioned deployment passes exactly when its identity is the literal `@HEAD`. |
| `GoogleAppsScript.IsHeadDeploymentByIdentity` | src/domain/googleAppsScript.ts:31-35 | Deployments with equal identities are classified alike. |
| `GoogleAppsScript.PinnedDeploymentNotHead` | src/domain/googleAppsScript.ts:15-35 | A deployment whose identity is `@` followed by its version number never passes the head guard. |
| `GoogleAppsScript.MappedDeploymentVariant` | src/domain/googleAppsScript.ts:7-23 | Where the client's deployments fall in the union. A record without a version number is a head deployment, with identity `@HEAD`. One with a non-zero number is a versioned deployment that the guard does not take for head. One with version number 0 fits neither variant: it has no number, yet its identity is `@0`. |
| `ProjectsView.ItemFields` | src/view/projectsView.ts:179-206 | A project item shows the project name as label and tooltip, and is keyed by the project id with context value `project`. A deployment item shows the version identity as label and tooltip, and is keyed by the deployment id with context value `deployment`. It carries the deployment's script id and description. |
| `ProjectsView.ContextValueIdentifiesKind` | src/view/projectsView.ts:185-200 | The context value is `project` exactly for project items and `deployment` exactly for deployment items. |
| `ProjectsView.StripLeadingDigits` | src/view/projectsView.ts:131 | The result is a suffix of the name. Everything removed is a digit. The result does not start with a digit, so the run removed is the longest one. |
| `ProjectsView.RemoveSeparators` | src/view/projectsView.ts:132 | The global replace never lengthens the text, and it keeps a leading character that is not a separator. `RemoveSeparatorsContents` and `RemoveSeparatorsSubsequence` pin it down exactly. |
| `ProjectsView.RemoveSeparatorsContents` | src/view/projectsView.ts:132 | No `-`, `@` or whitespace character remains, and every other character keeps its number of occurrences. |
| `ProjectsView.RemoveSeparatorsSubsequence` | src/view/projectsView.ts:132 | The characters kept stay in their original order. |
| `ProjectsView.UserSymbol` | src/view/projectsView.ts:130-132 | The symbol is no longer than the project name. `UserSymbolProperties` fixes its content exactly, from the `StripLeadingDigits` contract and the separator lemmas. `UserSymbolOfTaggedName` works it out for tagged names. |
| `ProjectsView.UserSymbolProperties` | src/view/projectsView.ts:130-132 | The user symbol has no separator left, is an in-order selection of the name's characters, is no longer than the name, and is empty for an all-digit name. Exactly: it is the name without its leading digits, in order, with the separators deleted and every other character kept as often as it occurs. |
| `ProjectsView.UserSymbolOfTaggedName` | src/view/projectsView.ts:130-132 | For a name of digits, then a name proper, then ` @tag`, the digits and separators go but the tag stays, so `3-My-App @v1` gives `MyAppv1`. |
| `ProjectsView.CopyLibraryReference` | src/view/projectsView.ts:129-138 | The library id is the deployment's script id, and development mode is on exactly when the deployment has no version number. The user symbol is derived from the project name. `LibraryReferenceVersion` adds the version string. |
| `ProjectsView.LibraryReferenceVersion` | src/view/projectsView.ts:129-138 | Development mode is on exactly when the deployment has no version number, and then the version is `0`. Otherwise the version string is the decimal text of the version number and reads back as it. The library id is the deployment's script id, and the user symbol is derived from the project name. |
| `ProjectsView.MappedDeploymentReference` | src/view/projectsView.ts:134-136 | For a deployment as the client maps it, the version is `0` exactly in development mode. Development mode covers both a missing version and version 0. The library id is the record's script id. |
| `ProjectsView.GetChildren` | src/view/projectsView.ts:147-174 | Below a project item there is one deployment leaf per deployment the client returns for the project's id. Anywhere else there is one project item per project. `ChildrenShape` states the order and the fields. |
| `ProjectsView.ChildrenShape` | src/view/projectsView.ts:147-205 | The root lists the projects in order as collapsed items labelled with their names. A project's children are its deployments in order, as leaves labelled with the version identity. Each leaf carries the whole deployment record and the project. |
| `ProjectsView.ChildReferencesPointAtProject` | src/view/projectsView.ts:150-163 | When the client returns only the project's own deployments, every library reference copied from a child points at that project. |

## Left out

- I/O is not modelled. The model takes what the I/O returns as input:
  - running `clasp` through a shell, `mkdir`, and reading `~/.clasprc.json`;
  - the OAuth set-up (`setupAuth`) and the Drive and Apps Script API calls;
  - the `clasp list` output, the Drive status and files, the deployment records, and `getDeployments` of the view (the function `deploymentsOf`).
- `downloadProject` is not modelled, in either client or in the view.
  - The view's version is a UI flow: a quick pick, a folder dialog and a progress notification.
  - The clients' versions are file-system and process I/O: `mkdir` and `clasp clone`.
- `copyProjectId`, `copyDeploymentId`, `openProjectUri` and `refresh` are not modelled. They only pass a field to the clipboard, the browser or an event emitter.
- `copyLibraryReference` is modelled only up to the object it serialises. `JSON.stringify`, the clipboard and the notification are left out.
- `src/extension.ts`, `src/util/detectRuntimePath.ts` and `src/ui/showExtendedQuickPick.ts` are not part of this model. They are wiring and UI.
- Promise rejections are not modelled: a failing `exec`, a failing API call, or a missing `~/.clasprc.json`. The one failure the code raises itself, the Drive status check, is modelled as a `Result`.
- ClaspClient.ListProjects: the request asks for one page of at most 50 files. The model takes whatever list the response carries.
- ClaspClient.ListProjects: `file.id!` and `file.name!` are modelled as strings that are always present. A missing one would show as `undefined` in JavaScript.
- Client.GetDeployments: `deploymentId!` and `scriptId!` are always present in the model. An absent `deploymentConfig` is folded into absent description and version fields.
- JsStrings.IntToDecimal: version and status numbers are integers. The model leaves out `toString`'s exponent form (magnitudes from 10^21 up) and fractions.
- Strings are sequences of Unicode characters, not UTF-16 code units. The model ignores surrogate pairs in `split`, the regular expressions and `\s`.
- `GoogleAppsScriptProject` is the same record as the client's `Project` and is not repeated. `GoogleAppsScriptVersion` is declared but has no operation in the code.

# clickout: a verified model of the ClickOnce fetch planner

`clickout.py` mirrors a ClickOnce deployment into a local directory. It reads the
application manifest. It takes the deployment base from the `deploymentProvider`
element. Then it fetches every install dependency that the application manifest
lists. Each fetched file is read as a manifest in its turn. Every install dependency
and every plain file that one lists is fetched as well, and it goes no deeper. A file
already on disk with the declared size is not fetched again.

This project models that core in Dafny:

- **`PurePaths`**: the part of `pathlib` the script uses. A path is a sequence of
  parts. Parsing splits on the separators, which are `/` for posix paths and both
  slash kinds for Windows paths, and drops empty and `.` pieces. The module also
  defines rendering back to text, `as_posix()` and `parent`.
- **`Percent`**: `urllib.parse.quote` with its defaults, over full UTF-8. It has a
  decoder `Unquote`, which states that encoding loses nothing.
- **`Uris`**: the URI as `join_uri` sees it, an origin plus path parts, together
  with `join_uri` and `resolve(".")`.
- **`Manifests`**: an already-parsed manifest. It holds the deployment codebase and
  the dependency and file elements in document order, with possibly missing
  attributes. It also holds the errors that abort the script, and the two XPath
  queries.
- **`Assemblies`**: `DependentAssembly`. This covers `Read`, the path components,
  the remote path, the remote base and the local path. It proves the `.deploy`
  suffix rule, the irrelevance of backslash spelling, and the relations between the
  three addresses.
- **`Fetching`**: the skip rule of `download_file_if_not_present_size` and the
  overwrite done by `download_file`. The filesystem is a map from paths to file
  contents and the network a map from URIs to response bodies.
- **`Planner`**: the run of `download_manifest` and of `download_application` as
  functions. A run is the requests issued in order, the resulting filesystem and the
  way it ended. Lemmas cover ordering, placement, the fixed depth and the early
  aborts.
- **`Clickout`**: the imperative script. Class `Downloader` holds the filesystem as a
  mutable field and appends every fetch attempt to a log. Its methods run the
  script's loops step by step. Each method is proved to end in exactly the run that
  the matching `Planner` function describes.
- **`Seqs`**, **`Wrappers`**: small generic sequence lemmas, `Option` and `Result`.

Neither the script nor the model catches an error. A missing attribute, a size that is
not a number, an unparsable file or a failed transfer all end the whole run. The model
returns `Aborted(error)` at that point, with the attempts made so far kept in the log.
The script parses every fetched top-level dependency as a manifest, so a dependency
that is not a manifest aborts the run. The model does the same.

## Model

| member | source | states |
|---|---|---|
| Uris.JoinUri | clickout.py:12-13 | the joined URI keeps the origin; its path is the old path followed by the items, in order, and nothing else |
| Uris.JoinUriLaws | clickout.py:12-13 | joining no items is the identity; two joins equal one join of both item lists; the origin and the existing path are kept as a prefix |
| Uris.ResolveDot | clickout.py:105-106 | `resolve(".")` keeps the origin, and the resolved path followed by the document's last part is the original path |
| Fetching.Download | clickout.py:17-23 | never skips; the result is `Fetched` iff the network answers the URI; the local file then holds the body, or the empty truncated file when the transfer fails |
| Fetching.Present | clickout.py:31 | the skip test passes only for an existing file, and never for a negative declared size, since no file is shorter than empty |
| Fetching.Fetch | clickout.py:26-34 | skipped iff the local file exists with exactly the declared size, and then the filesystem is unchanged; `Fetched` iff not present and the URI answers; otherwise the local path holds the body or the empty file |
| Fetching.FetchFrame | clickout.py:20-23 | a fetch changes no path other than its own local path: each other path keeps its contents or its absence |
| Fetching.FetchIdempotent | clickout.py:31-34 | after a successful call whose body has the declared size, the same call again skips and changes nothing |
| Fetching.RefetchOnMismatch | clickout.py:31-34 | a present file of a different size is never skipped; afterwards it has the size the server sent, and it is present when that size is the declared one |
| Percent.Quote | clickout.py:51 | the encoding is never shorter than its input, and text made only of unreserved characters is unchanged |
| Percent.Utf8RoundTrip | clickout.py:51 | decoding the UTF-8 octets of a text gives the text back |
| Percent.UnquoteQuote | clickout.py:51 | percent-decoding an encoded segment gives back the original segment |
| Percent.QuoteAppend | clickout.py:51 | quoting a concatenation is the concatenation of the quoted halves |
| Percent.QuoteSlash | clickout.py:50-51 | an encoded text contains '/' iff the original does, so a segment stays one segment |
| Percent.QuotePart | clickout.py:50-51 | an encoded text is neither empty nor "." iff the original is neither |
| Percent.QuotePosixPart | clickout.py:50-53 | a text encodes to a valid posix part iff it is one itself |
| Percent.QuoteAllPosixParts | clickout.py:50-53 | encoding valid posix parts gives valid posix parts |
| PurePaths.Pieces | clickout.py:51 | splitting never yields zero pieces, and no piece contains a separator |
| PurePaths.Parts | clickout.py:51 | every part pathlib keeps is non-empty, not ".", and free of separators |
| PurePaths.DropEmptyAppend | clickout.py:51 | dropping empty and "." pieces works piece by piece, so the kept pieces keep their order: over a concatenation it is the concatenation of the results |
| PurePaths.DropEmptyComplete | clickout.py:51 | a piece is kept iff it is neither empty nor "." |
| PurePaths.RenderParts | clickout.py:93-94 | parsing the text of valid posix parts gives those parts back |
| PurePaths.PurePosixOf | clickout.py:56 | `PurePosixPath(*items)` yields valid posix parts, and valid posix parts come back exactly as they were |
| PurePaths.AsPosix | clickout.py:73 | `as_posix()` of a Windows path has the Windows path's parts under posix parsing and contains no backslash |
| PurePaths.ForwardSlashesAsPosix | clickout.py:73 | writing every backslash as '/' changes neither the Windows parts nor the posix form |
| PurePaths.SuffixParts | clickout.py:52 | appending a separator-free suffix to rendered parts extends the last part, or forms "." plus the suffix when there were no parts |
| PurePaths.Parent | clickout.py:117 | the parent followed by the last part is the path; the empty path is its own parent |
| Assemblies.Read | clickout.py:70-75 | succeeds iff both the codebase and the size attribute are present and the size is a number; reports the codebase before the size; the stored codebase has no backslash and has the attribute's Windows parts |
| Assemblies.Components | clickout.py:49-53 | the components are valid posix parts |
| Assemblies.RemoteRelativePath | clickout.py:55-56 | joining the components into a path neither loses nor merges any of them |
| Assemblies.RemotePath | clickout.py:61-65 | the remote keeps the base's origin, and its path is the base path followed by all components |
| Assemblies.RemoteBasePath | clickout.py:58-59 | the remote base keeps the origin; its path is the base path followed by every component but the last, none lost or merged by the join |
| Assemblies.LocalPath | clickout.py:67-68 | the local path starts with the destination, and everything after it is a valid posix part |
| Assemblies.DirectComponents | clickout.py:49-53 | a direct reference's components are the quoted Windows parts of its codebase |
| Assemblies.IndirectComponents | clickout.py:49-53 | an indirect reference's components are the quoted parts, with ".deploy" after the quoted last one; a codebase with no parts gives "..deploy" |
| Assemblies.SuffixRule | clickout.py:49-53 | direct and indirect components have the same length and agree on all but the last, which the indirect one extends by ".deploy"; with no parts they are [] and ["..deploy"] |
| Assemblies.SuffixedComponents | clickout.py:52-53 | the components of rendered parts with ".deploy" appended to the text |
| Assemblies.QuoteAllSuffixed | clickout.py:50-53 | ".deploy" passes through quoting unchanged at the end of the last part |
| Assemblies.SpellingIrrelevant | clickout.py:70-75 | the backslash and forward-slash spellings of a codebase read to the same assembly, hence the same components, remote path, remote base and local path |
| Assemblies.RemoteBaseDropsLast | clickout.py:58-65 | the remote base is the remote path with its last part dropped; with at most one component it is the deployment codebase itself |
| Assemblies.SingleSegmentBase | clickout.py:58-59 | a single-part codebase, direct or not, has the deployment codebase as its remote base |
| Assemblies.LocalPathRule | clickout.py:67-68 | the local path is the destination followed by the codebase's Windows parts: no suffix, no encoding, the same for direct and indirect |
| Manifests.Installs | clickout.py:85 | the query yields only install dependencies of the document, and no more results than there are entries |
| Manifests.InstallsComplete | clickout.py:85 | an element is found iff it is a dependency of the document whose type is "install" |
| Manifests.InstallsAppend | clickout.py:85 | the query keeps document order: over a concatenation it is the concatenation of the results |
| Manifests.Files | clickout.py:92 | the query yields only file elements of the document, and no more results than there are entries |
| Manifests.FilesAppend | clickout.py:92 | the file query keeps document order |
| Manifests.FilesComplete | clickout.py:92 | an element is found iff it is a file element of the document |
| Planner.FileName | clickout.py:93 | the converted name has exactly the Windows parts of the `name` attribute |
| Planner.FileRemote | clickout.py:94-96 | a plain file's remote keeps the base's origin, has the base path as a prefix, and adds only valid posix parts |
| Planner.FileLocal | clickout.py:95-97 | a plain file's local path is the destination followed by the Windows parts of its name |
| Planner.DependencyStep | clickout.py:86-90 | a dependency yields a request iff `Read` succeeds, otherwise `Read`'s error; the request carries the declared size |
| Planner.DependencyUnder | clickout.py:86-90 | a dependency's request writes under the destination and reads from under the base |
| Planner.FileStep | clickout.py:92-99 | a file element yields a request iff it has a name and a numeric size; the request carries that size |
| Planner.FileStepErrors | clickout.py:93-99 | a missing name is reported before the size is looked at; then a missing size, then a size that is not a number |
| Planner.FileUnder | clickout.py:92-99 | a file's request writes under the destination and reads from under the base |
| Planner.PlainFileRule | clickout.py:93-97 | a plain file is written to the destination followed by its converted name; it is fetched from the base followed by the same parts with ".deploy" on the last, not encoded; an indirect dependency of that codebase differs only in being encoded |
| Planner.Advance | clickout.py:85-99 | a step after an abort changes nothing; the run is still complete after a step iff it was before, the step could be formed, and its transfer did not fail |
| Planner.Exec | clickout.py:85-99 | a run that completes had every one of its steps well formed |
| Planner.ExecFollowsSteps | clickout.py:85-99 | the i-th attempt is the i-th step's request, there are never more attempts than steps, and a completed run attempted every step with no failed transfer |
| Planner.ExecAbortedStable | clickout.py:85-99 | once a step has aborted, the later steps change nothing |
| Planner.ExecFrame | clickout.py:85-99 | a path that no step writes keeps its contents or its absence |
| Planner.ExecManifest | clickout.py:78-80 | an unreadable manifest aborts with no attempt and no change |
| Planner.ManifestOrder | clickout.py:85-99 | the attempts are the install dependencies' requests in document order, then the files' requests; at most one attempt per such entry, with no nested manifest opened; every step is attempted when the run completes |
| Planner.EmptyManifest | clickout.py:85-99 | a manifest with no install dependency and no file makes no attempt, changes nothing and completes |
| Planner.ManifestPlacement | clickout.py:85-99 | every request of one manifest writes under its destination and reads from under its remote base |
| Planner.TopLevel | clickout.py:109-117 | a top-level dependency that cannot be read aborts with `Read`'s error, no attempt and no change; a readable one makes at least its direct attempt |
| Planner.TopLevelShape | clickout.py:109-117 | the first attempt is the direct request; every later attempt lands beside the fetched file and comes from the dependency's remote base |
| Planner.TopLevelNested | clickout.py:114-117 | after a direct fetch that did not fail, an unparsable file stops the run after that attempt; otherwise every later attempt is, in order, a request of the fetched document's steps with the dependency's remote base and the fetched file's directory, all of them when the run completes |
| Planner.AppSteps | clickout.py:108-117 | a run over the top-level dependencies that completes made at least as many attempts as there are dependencies |
| Planner.TopLevelAfter | clickout.py:109-117 | a dependency processed after earlier attempts keeps them in front; unreadable, it aborts with `Read`'s error and adds nothing; readable, its direct request comes next and every later attempt lands beside the fetched file and comes from its remote base |
| Planner.AppStepsAt | clickout.py:108-117 | the dependencies are taken in document order: once the first i have completed, the run over i+1 extends their log, and the (i+1)-th one's direct request is the attempt right after the earlier ones, followed only by attempts under its own remote base and beside its file |
| Planner.AppStepsAbortedStable | clickout.py:108-117 | once a top-level dependency has aborted, the later ones change nothing |
| Planner.RunApplication | clickout.py:102-117 | an unreadable application manifest or a missing deployment provider aborts before any fetch, with no attempt and no file written |
| Clickout.Downloader.DownloadFile | clickout.py:17-23 | the new filesystem and the outcome are those of `Download`; the log is unchanged |
| Clickout.Downloader.DownloadIfNotPresentSize | clickout.py:26-34 | the new filesystem and the outcome are those of `Fetch`; the attempt is appended to the log |
| Clickout.Downloader.Issue | clickout.py:90 | one step of a run: a step that could not be formed aborts; a failed transfer aborts after its logged attempt |
| Clickout.Downloader.IssueNext | clickout.py:85-99 | issuing the next step keeps the loop invariant "state = run of the steps so far"; on an abort the state is already the run of all steps |
| Clickout.Downloader.DownloadDependencies | clickout.py:85-90 | after the dependency loop the state is the run of the dependency steps, or, on an abort, of the whole manifest |
| Clickout.Downloader.DownloadFiles | clickout.py:92-99 | after the file loop the state is the run of the whole manifest |
| Clickout.Downloader.DownloadManifest | clickout.py:78-99 | the new filesystem, the appended attempts and the status are exactly `ExecManifest` of the old filesystem |
| Clickout.Downloader.DownloadApplication | clickout.py:102-117 | the new filesystem, the appended attempts and the status are exactly `RunApplication` of the old filesystem |

## Left out

- XML parsing and the XPath lookups are not modelled. A manifest arrives parsed, as its entries in document order. Attributes may be absent, and a size is a number or not one.
- `urlopen` and the byte transfer become a map from URIs to response bodies. A URI outside the map stands for any transfer error.
- The rendering of a URI to the string handed to `urlopen` is not modelled. Requests and the network are keyed by the structured URI.
- `Uris.ResolveDot`: `resolve(".")` of section 5.2 of RFC 3986 is modelled as dropping the last path part. A codebase URI ending in '/', queries and fragments are not modelled.
- `PurePaths`: absolute paths, drive letters, UNC prefixes, a leading `//` and `..` are not modelled. Other pathlib behaviour is modelled only as far as splitting and rendering.
- Directory creation (`mkdir`) is folded into writing the file map, so directories are not entities of the model. Two failures are therefore not modelled. `mkdir` raises when a parent of the output already exists as a file. `open(mode="wb")` raises when the local path is a directory, as for a direct codebase with no parts, whose local path is the destination itself. The model writes the map entry in both cases.
- A file's contents are its size and what parsing it as a manifest yields, not its bytes.
- `Percent.Unquote`: it models `unquote` only on what `quote` produces. Python's replacement of malformed octets with U+FFFD is not modelled.
- Progress output (`print`), `main`, the command line and the fixed `./unpack` directory are not modelled.

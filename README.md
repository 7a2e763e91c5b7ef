# Manifest-narrowing retrieve loop of `create_refresh_project.js`

This project models, in Dafny, the core of the CLI that refreshes a local snapshot of a
Salesforce org's metadata. The core is the loop that retrieves "every" metadata type and
works around the Salesforce CLI's incomplete type registry:

- **Manifest builder** (`Manifest`). It writes `package.xml` with one wildcard `<types>`
  block per discovered metadata type that is not on the exclusion list, in discovery order,
  then one `<version>` element. `BuildManifest` is the `+=` loop. `ManifestText` is the
  document it must produce. `DecodeManifest` reads a manifest back; it exists only to state
  the round trip.
- **Reply classification** (`Retrieval`). `Classify` turns one run of
  `sf project retrieve start` into `Success`, `StructuredFailure(json)` or `Unparseable`.
  It follows the `try`/`catch` of the source, including the choice of which captured
  stream is saved when the command throws (`RawOutput`).
- **Diagnostic scanner and exclusion update** (`Diagnostics`). `ScanFrom`/`Scan` are an
  explicit scan for the global regular expression
  `Missing metadata type definition in registry for id '([^']+)'`. The scanner takes the
  literal part of the pattern as a parameter, and `Scan` fixes it to `Signature`. `AppendNew` specifies
  the deduplicating append. `HandleRetrieveErrors` is the in-place `push` loop over an
  `ExcludeList` object.
- **Retry controller** (`Retry`). `RunRetrieveWithRetries` is the attempt loop. Its
  contract ties it to the function `Run`. `Explains` describes a run attempt by attempt.
  Lemmas give bounded termination, monotone growth of the exclusion list, and retrying
  without progress up to the cap.

The external commands and the parser are parameters of the model:

- `Config.retrieve(n, xml)` is the reply of attempt `n` when it runs against manifest
  text `xml`.
- `Config.parse` stands for `JSON.parse`. An `Err` carries the message of the syntax
  error it would throw.
- A parsed reply is `Null` (the JSON value `null`) or `Value(status, body)`. `Text()`
  stands for its `JSON.stringify` form, which is `null` for `Null`.
- Reading `status` of `null` raises a `TypeError` inside the `try` block. The model sends
  that case to the `catch` path with the error's message `NullStatusMessage`.
- `process.exit(1)` becomes an `Exit` other than `Succeeded`. Returning normally becomes
  `Succeeded`.

The model follows the code as written. Some consequences of it:

- A reply parsed in the `catch` block goes to the error handler without a status check,
  even when its status is 0 (`create_refresh_project.js:165-167`).
- The exclusion list is an ordered array. Entries are appended in the order the
  diagnostic names them, each at its first mention.
- A failure that names only types that are already excluded does not end the run early.
  The loop retries until the cap (`NoProgressRunsToCap`).
- Every `<types>` block has the `*` wildcard as its only member.

## Model

| member | source | states |
|---|---|---|
| `Manifest.BuildManifest` | create_refresh_project.js:110-124 | the string built by the header, the per-type `+=` appends, the version line and the closing tag is exactly `ManifestText` of the types, the exclusion list and the version |
| `Manifest.Kept` | create_refresh_project.js:114-115 | a type gets a block if and only if it is one of the discovered types and not on the exclusion list; it never yields more names than were discovered |
| `Manifest.KeptAppend` | create_refresh_project.js:114-121 | filtering commutes with concatenation, so the blocks keep the discovery order |
| `Manifest.KeptMultiplicity` | create_refresh_project.js:114-121 | an excluded type gets no block; any other type gets one block per occurrence in the discovered list |
| `Manifest.KeptShrinks` | create_refresh_project.js:115 | a larger exclusion list never yields more blocks |
| `Manifest.ManifestFrame` | create_refresh_project.js:110-124 | the manifest starts with the XML declaration and the `<Package xmlns="http://soap.sforce.com/2006/04/metadata">` line and ends with `<version>V</version>` and `</Package>`; with no kept type it is only those lines |
| `Manifest.DecodeBlocksRoundTrip` | create_refresh_project.js:116-121 | reading back a sequence of appended blocks gives exactly their names, in order, and the text after them |
| `Manifest.ManifestRoundTrip` | create_refresh_project.js:110-124 | reading back a built manifest gives exactly the kept types, each once per occurrence, in order, each with a `*` member, and the one supplied version (for names without `<`) |
| `Retrieval.RawOutput` | create_refresh_project.js:153-160 | the text saved from a thrown error is its stdout if present, otherwise its stderr if present, otherwise its message |
| `Retrieval.Classify` | create_refresh_project.js:134-172 | success if and only if the command exited normally and its output parses to a non-null value with status 0; unparseable if and only if the text the `catch` block parses does not parse, where that text is the saved stream of a thrown error, or the message of the error raised inside the `try` block by unparseable output or by a `null` reply; otherwise a structured failure carrying the parse that reached the handler |
| `Diagnostics.ScanFrom` | create_refresh_project.js:181 | every id the scan yields is non-empty and has no `'`, as the capture group `([^']+)` demands |
| `Diagnostics.ScanSound` | create_refresh_project.js:181 | every id the scan yields is the capture of a match of the pattern at or after the start position |
| `Diagnostics.ScanLeftmost` | create_refresh_project.js:181 | the scan yields the leftmost match's id first and then resumes just after that match's closing quote, so matches do not overlap and come left to right |
| `Diagnostics.ScanEmpty` | create_refresh_project.js:181-183 | the scan is empty if and only if the diagnostic contains no match of the pattern anywhere |
| `Diagnostics.ScanReport` | create_refresh_project.js:181-185 | a diagnostic naming ids through the pattern, with filler before each that does not contain the pattern's first character, scans back to exactly those ids, in order, repeats included |
| `Diagnostics.AppendNew` | create_refresh_project.js:184-190 | the old list is an unchanged prefix; the result holds exactly the old entries and the named ids; each appended entry is a named id that was not already excluded |
| `Diagnostics.AppendNewNoDuplicates` | create_refresh_project.js:186-188 | a list without duplicates stays without duplicates, even when an id is named several times |
| `Diagnostics.AppendNewIsUnion` | create_refresh_project.js:184-190 | the appended part does not depend on the excluded ids: it is what appending only the named ids that are not excluded, in the order named, to an empty list gives |
| `Diagnostics.AppendNewCons` | create_refresh_project.js:184-190 | the ids are handled front to back: the first named id is added, unless already present, before any later one is looked at |
| `Diagnostics.AppendNewFirstMentions` | create_refresh_project.js:184-190 | the list becomes the old list followed by exactly the named ids not yet present, each at its first mention, in the order named, as `FirstMentions` defines it front to back |
| `Diagnostics.RepeatedIdAppendedOnce` | create_refresh_project.js:184-190 | naming `A`, `B`, `A` to an empty list appends `A` then `B`, and nothing for the second `A` |
| `Diagnostics.AppendNewGrows` | create_refresh_project.js:184-190 | the list grows if and only if some named id is not yet excluded |
| `Diagnostics.AppendNewAllNew` | create_refresh_project.js:184-190 | distinct ids that are all new are appended as they are |
| `Diagnostics.ReportedIdsAppended` | create_refresh_project.js:179-190 | a diagnostic naming distinct new ids (for example `'Foo'` and then `'Bar'`) adds exactly those ids, in that order |
| `Diagnostics.ExcludeList.constructor` | create_refresh_project.js:102 | the working list starts as a copy of the seed |
| `Diagnostics.HandleRetrieveErrors` | create_refresh_project.js:179-195 | aborts if and only if the stringified reply has no match, leaving the list unchanged; otherwise the list becomes `AppendNew` of the old list and the matches |
| `Retry.RunRetrieveWithRetries` | create_refresh_project.js:100-177 | the attempt loop, with its private copy of the seed, manifest rebuild, classification and error handling, returns exactly `Run` of its inputs |
| `Retry.RunExplained` | create_refresh_project.js:100-177 | every run is explained attempt by attempt: the first manifest uses the seed, each attempt before the last failed naming at least one type and produced the next list, the last attempt's outcome gives the exit, and only the cap ends a run that keeps failing that way |
| `Retry.RunCharacterized` | create_refresh_project.js:100-177 | a result is explained attempt by attempt, as in `RunExplained`, if and only if it is the run's result, so that description determines the run uniquely |
| `Retry.RunTerminates` | create_refresh_project.js:104-176 | a run makes at most `maxRetries` attempts; it ends with retries exceeded exactly when it made `maxRetries` attempts and the last one did not decide the run; any other exit follows at least one attempt |
| `Retry.FirstAttemptSucceeds` | create_refresh_project.js:144-146 | a status-0 reply on the first attempt ends the run at once as a success, after one attempt, with the seed list |
| `Retry.RunGrows` | create_refresh_project.js:102-167 | the seed is a prefix of every attempt's list and of the final list; each attempt's list is a prefix of the next; each manifest names no more types than the one before; a seed without duplicates stays without |
| `Retry.NoProgressRunsToCap` | create_refresh_project.js:104-173 | when every attempt fails naming only types already excluded, the run does not stop early: it makes `maxRetries` attempts, ends with retries exceeded, and the list stays the seed |

## Left out

- The modelled loop runs one external command, `sf project retrieve start` (lines
  135-138). It is a process outside the model and appears as the `Config.retrieve` oracle.
  Before and after the loop the program also runs `sf project generate`, `sf org display`,
  `sf org login web`, `sfdx force:mdapi:describemetadata` and `git`. These are not part of
  this model.
- Filesystem effects are I/O: creating `manifest/`, writing `package.xml`, deleting
  `force-app/main`, and writing, reading and deleting `retrieve_result.json`. The manifest
  is the string the file would hold. Writing the reply to the result file and reading it
  back is taken as the identity.
- An exception thrown by these file operations inside the `try` block would also reach the
  `catch` block. That path is not modelled.
- The `jsforce` connection and API-version discovery (lines 68-82) are a network call and a
  foreign library. The version is an input.
- Metadata type discovery (lines 85-94) is an external command and JSON parsing. The type
  list is an input. `JSON.parse` is the `parse` parameter and `JSON.stringify` is
  `Json.Text()`.
- Command-line parsing, the choice of login URL, and console logging (lines 27-39 and the
  `console` calls) have no behaviour to verify. That includes the message "Exceeded maximum
  retry attempts (50)", which mentions 50 whatever the cap is.
- `runGitCommitIfNeeded` (lines 197-217) is best-effort process orchestration after the
  loop.
- The `async` wrapper has no concurrency: everything runs in sequence.
- `Retry.RunRetrieveWithRetries`: `maxRetries` is a `nat`. A negative JavaScript number
  behaves like 0: there are no attempts and the run ends with retries exceeded.
- `Retrieval.Classify`: a JSON `status` that is not a number is `None`. Only the number 0
  counts as success, as with `=== 0`. `NullStatusMessage` is the message V8 gives the
  `TypeError` for a `null` reply. Other engines word it differently. Any wording that
  `parse` rejects leads to the same outcome.
- `Diagnostics.ScanFrom`: characters are Dafny `char`s. JavaScript matches on UTF-16 code
  units. The pattern uses only ASCII characters and `'`, so the two agree.
- `Manifest.ManifestRoundTrip`: the source writes type names and the version into the XML
  without escaping. The round trip is stated for names and versions without `<`, which
  holds for metadata type names and API versions.
- `RunResult.history` records the exclusion list each attempt's manifest was built from. It
  is bookkeeping for the lemmas and is not state the source keeps.

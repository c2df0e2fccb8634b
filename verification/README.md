# IFC Lab viewer session, in Dafny

IFC Lab is a browser page. It loads an IFC building model or a pre-converted
fragment file. It can convert the IFC to fragments and offers the fragment
bytes for download. All parsing, conversion and rendering happen in the
`@thatopen/components` library. The page itself owns one small piece of logic:
the session state machine in `src/main.js`. This project models that state
machine and proves properties of it.

- `text.dfy` (module `Text`): how file names are handled. This covers the
  lower-casing used for dispatch, `endsWith`, the regular expression
  `/\.ifc$/i`, and the `.ifc` to `.frag` rename of the download name.
- `viewer.dfy` (module `Viewer`): the `state` record and the page elements
  that reflect it. It also holds the set of models resident in the fragments
  runtime and the handlers `updateStats`, `clearModels`, `loadFragBuffer`,
  `loadFragFile`, `loadIfcFile`, `handleFile` and `downloadFrag`.
- `properties.dfy` (module `ViewerProperties`): what one `handleFile` call
  does, path by path. This includes every failure point.
- `invariants.dfy` (module `SessionInvariants`): facts about every session
  reachable from start-up, through any sequence of picked or dropped files.

Each library call is one field of an `Outcomes` record. It either returns a
value or throws. The fields are `disposeModel` inside the clear,
`ifcLoader.setup`, `file.arrayBuffer()`, `ifcLoader.load`, `model.getBuffer()`,
the `disposeModel` of the IFC model, and `fragments.core.load`. A handler is
one atomic step. It returns `Completed` or `Threw`, and in both cases carries
every write made before the exception. `handleFile`'s `catch` then sets the
failure status and hides the overlay. The resident models are a set of ids.
A `nextId` counter stands in for the clock-derived ids.

Three facts about the code are easy to assume otherwise:

- A failed load can leave a fragment buffer behind. Once `getBuffer` has
  returned, the buffer is already stored (line 231). A failing dispose or
  reload after that leaves the buffer in place, while the download button
  stays disabled (`IfcFailureAfterClear`, `StaleButtonAfterReloadFailure`).
- A failing parse does not keep the previously stored buffer and name. The
  clear at the start of `loadIfcFile` (line 206) has already discarded both
  (`FailedParseDiscardsPreviousBuffer`).
- After every load that completes, the download button is enabled exactly
  when a buffer is held (`CompletedRunShowsState`). The unknown-extension
  path also completes, but it writes only the status line, so a stale button
  from an earlier failure survives it (`StaleButtonSurvivesUnknownFile`). On
  every reachable session only one direction holds: an enabled button always
  has a buffer behind it (`ReachableSessions`).

## Model

| member | source | states |
|---|---|---|
| Text.MatchesIfcSuffix | src/main.js:232 | The regular expression `/\.ifc$/i`, written out as a reference definition: the name ends in a dot followed by `i`, `f` and `c`, each in either case. Its agreement with the lower-cased suffix test is proved in `IfcDispatchMatchesRegex`. |
| Text.IfcToFragName | src/main.js:232 | A name matching `/\.ifc$/i` keeps its stem, gains exactly one character and ends in `.frag`. Any other name is returned unchanged. The result never matches the regex again. |
| Text.LowerChar | src/main.js:247 | The lower-case partner of a character: an ASCII capital maps to the letter at the same place in `a`-`z`, and every other character maps to itself. |
| Text.ToLower | src/main.js:247 | Lower-casing keeps the length and turns each character into its lower-case partner, position by position. |
| Text.ToLowerIdempotent | src/main.js:247 | The lower-cased name has no capitals left, and lower-casing it again changes nothing. |
| Text.EndsWith | src/main.js:249-251 | `endsWith(s, t)`: `t` is no longer than `s`, and `s` finishes with exactly the characters of `t`, in order. |
| Text.EndsWithIsConcatenation | src/main.js:249-251 | `endsWith(s, t)` holds exactly when `s` is some prefix followed by `t`. |
| Text.IfcDispatchMatchesRegex | src/main.js:247-252 | `name.toLowerCase().endsWith(".ifc")` holds if and only if the rename regex of line 232 matches `name`. So every file sent down the IFC path has its suffix rewritten. |
| Text.FragAndIfcSuffixesExclusive | src/main.js:249-252 | No string ends in both `.frag` and `.ifc`, so the order of the two dispatch tests never matters. |
| Text.EndsWithLowered | src/main.js:247-249 | A name ending in a suffix without capitals still ends in that suffix once lower-cased. |
| Text.FragSuffixLowered | src/main.js:232 | A name ending in `.frag` still ends in `.frag` once lower-cased, so a renamed download is recognised as a fragment. |
| Text.RenameKeepsStem | src/main.js:232 | Whatever stem precedes an `.ifc` suffix in any case, the rename keeps that stem and appends `.frag`. |
| Text.RenameExamples | src/main.js:232 | `Tower.IFC` becomes `Tower.frag`, `model.ifc` becomes `model.frag`, and `plan.ifc.bak` is left as it is. |
| Viewer.SetOverlay | src/main.js:131-138 | The overlay shows the given text and is visible exactly while busy. Every other page element, the state and the resident models are unchanged. |
| Viewer.SetStatus | src/main.js:140-142 | The status line shows the given text. Every other page element, the state and the resident models are unchanged. |
| Viewer.UpdateStats | src/main.js:144-157 | The cards show the recorded source name and type. The download button is enabled exactly when a buffer is held. The fragment card texts match the button. Nothing else changes. |
| Viewer.Init | src/main.js:98-103 | The start-up session has no buffer, `model.frag` as download name, `-` as source, no resident model and a disabled button, with the cards current. |
| Viewer.Classify | src/main.js:247-255 | A name is a fragment exactly when its lower-cased form ends in `.frag`. It is an IFC exactly when that form ends in `.ifc`. Otherwise it is unknown. |
| Viewer.ClearModels | src/main.js:159-167 | The clear completes exactly when no resident model is left undisposed, so it cannot throw with nothing resident. It then leaves no resident model, no buffer, the default name and a disabled button. If a dispose throws, state and page are unchanged, exactly the models disposed before it are gone, and at least one model, the one whose disposal threw, stays resident. |
| Viewer.Admit | src/main.js:180-184 | A loaded model becomes resident under an id not used before. Earlier resident models stay resident, and state and page are untouched. |
| Viewer.LoadFragBuffer | src/main.js:179-185 | It completes exactly when `fragments.core.load` returns, and then one fresh model is resident. A throw changes nothing. |
| Viewer.DisposeModel | src/main.js:234-235 | It completes exactly when `disposeModel` returns, and then the given id is no longer resident. It never adds a model. |
| Viewer.LoadFragFile | src/main.js:187-203 | It completes exactly when the clear, the read and the load succeed. On completion the buffer is the bytes read and both names are the file's own name. Exactly one fresh model is resident and the button is enabled. After a successful clear, a failure leaves no buffer, the default name and no model. |
| Viewer.LoadIfcFile | src/main.js:205-242 | It completes exactly when the clear, setup, read and parse succeed, plus export, dispose and reload when auto-conversion is on. Without conversion there is no buffer, the default name, the IFC model resident and the button disabled. With conversion the buffer is the exported bytes under the renamed name, and only the new fragment model is resident. After a successful clear, every model resident at the end, on success or failure, was loaded during this call. |
| Viewer.ParseIfc | src/main.js:206-219 | It completes exactly when setup, read and parse all return. It then records the file as an IFC source, adds one fresh model and shows current cards. On a throw, state, resident models and cards are unchanged. |
| Viewer.ConvertIfc | src/main.js:227-241 | It completes exactly when export, dispose and reload all return. Once `getBuffer` has returned, the exported bytes and the renamed name are stored, even if a later step throws. On completion the IFC model is replaced by one fresh fragment model and the button is enabled. On a throw the cards and button are unchanged and no model is added. |
| Viewer.Dispatch | src/main.js:248-255 | An unknown extension never throws. Every model resident after the run was resident before or got a fresh id during it. The resident set is a subset of the earlier one or holds at most one model. |
| Viewer.HandleFile | src/main.js:244-261 | A missing file changes nothing. A thrown exception ends with the failure status and a hidden overlay. State, resident models, cards and button are those the dispatched load left behind. |
| Viewer.DownloadFrag | src/main.js:263-272 | Nothing is offered exactly when there is no buffer. Otherwise the stored bytes are offered under the current download name. |
| ViewerProperties.UnknownExtensionOnlySetsStatus | src/main.js:253-255 | For a name ending in neither `.frag` nor `.ifc`, the only change is the "unknown type" status. There is no clear, and buffer, names, cards and resident models stay as they were. |
| ViewerProperties.UpperCaseFragExample | src/main.js:247-250 | `X.FRAG` takes the fragment path. |
| ViewerProperties.IfcAndUnknownExamples | src/main.js:247-255 | `Tower.IFC` takes the IFC path and `notes.txt` is rejected. |
| ViewerProperties.FragUploadRoundTrip | src/main.js:192-200 | After a successful `.frag` load the download is exactly the bytes read, under the file's own name with its case kept. The source type is `Fragment (.frag)`, the button is enabled and one fresh model is resident. |
| ViewerProperties.IfcDownloadNameIsFrag | src/main.js:232 | For a file dispatched as IFC, the download name is its stem plus `.frag`, and picking that name again takes the fragment path. |
| ViewerProperties.IfcConvertedDownload | src/main.js:227-241 | After a successful conversion the download is the exported bytes under the stem plus `.frag`. The IFC model's id is no longer resident, exactly one model is, and the button is enabled. |
| ViewerProperties.TowerExample | src/main.js:232 | Converting `Tower.IFC` offers the exported bytes as `Tower.frag`. |
| ViewerProperties.AutoConvertOffKeepsNoBuffer | src/main.js:217-225 | With auto-conversion off the source is recorded. There is no buffer, the default name stays, the button is disabled, nothing can be downloaded, and the IFC model stays resident. |
| ViewerProperties.CompletedRunShowsState | src/main.js:148-156 | After any load that completes, the button is enabled exactly when a buffer is held and the cards are current. The unknown-extension path keeps this only if it held before. |
| ViewerProperties.LoadReplacesResidentModels | src/main.js:159-163 | After a successful clear none of the earlier models is resident, whatever fails later. |
| ViewerProperties.FragFailureAfterClear | src/main.js:187-198 | A failing read or load after the clear leaves no buffer and the default name, not the previous ones. Nothing is resident, and the failure status is shown. |
| ViewerProperties.ClearFailureKeepsState | src/main.js:159-163 | A failing clear keeps state and cards. Only the status and overlay report the failure, and only the models disposed so far are gone. |
| ViewerProperties.IfcFailureAfterClear | src/main.js:205-242 | IFC failures, by where they happen. Before the parse returns: no buffer and nothing resident. At `getBuffer`: the source is recorded and the IFC model stays. At dispose or reload: the exported bytes and the renamed name are stored, yet the button stays disabled. |
| ViewerProperties.StaleButtonAfterReloadFailure | src/main.js:230-239 | A concrete run: converting `a.ifc` with a failing reload leaves the button disabled, while `downloadFrag` would offer the bytes as `a.frag`. |
| ViewerProperties.StaleButtonSurvivesUnknownFile | src/main.js:253-255 | A concrete two-step run: after the failed conversion above, picking `notes.txt` completes, yet the button stays disabled while a buffer is held. |
| ViewerProperties.FailedParseDiscardsPreviousBuffer | src/main.js:205-215 | When a parse fails, the previously stored buffer is gone and the default name is back, because the clear ran first. |
| SessionInvariants.Replay | src/main.js:299-312 | The id counter never decreases. Every model resident at the end that was not resident at the start got its id from the counter during the replay, so no new model takes the id of a model that is still resident. |
| SessionInvariants.InitSatisfiesInv | src/main.js:317-318 | The start-up page satisfies the session invariant. |
| SessionInvariants.FragLoadKeepsPage | src/main.js:187-203 | The fragment path keeps the page part of the invariant on every outcome. |
| SessionInvariants.IfcLoadKeepsPage | src/main.js:205-242 | The IFC path keeps the page part of the invariant on every outcome, including a buffer stored under the renamed name before a later failure. |
| SessionInvariants.HandleFileKeepsPage | src/main.js:256-260 | The `catch` of `handleFile` writes only the status and the overlay, so the page part of the invariant carries over from the dispatched run. |
| SessionInvariants.StepPreservesInv | src/main.js:244-261 | Every `handleFile` keeps the session invariant on every path, failures included. The invariant: resident ids were issued earlier, at most one model is resident, no buffer means the default name, an enabled button means a buffer, the download name dispatches as a fragment, and the cards are current. |
| SessionInvariants.ReplayPreservesInv | src/main.js:299-312 | The invariant holds after any sequence of file picks. |
| SessionInvariants.ReachableSessions | src/main.js:263-264 | In every reachable session at most one model is resident. An enabled button always has bytes behind it, the offered name always dispatches as a fragment, and without a buffer the name is `model.frag`. |

## Left out

- The HTML template, the element lookups, the drag highlighting and CSS class toggling are pure UI. The overlay is a text plus a shown flag, and the cards and status are strings.
- The world, scene, renderer, camera and worker set-up, the `onItemSet` scene attachment and `fragments.core.update` are library calls with no behaviour visible in this file. The resident set stands for `fragments.list`.
- `ensureIfcLoader` and its WASM paths are library configuration. Only whether `ifcLoader.setup` throws is modelled.
- The Blob, object URL and synthetic link click in `downloadFrag` are browser I/O. `DownloadFrag` returns the bytes and name it would save.
- `resetView` only animates the camera through the library and does not touch the session.
- `console.error` is a log with no effect on the session.
- Model ids built from `Date.now()` are replaced by a counter that always yields an unused id. In the code (lines 180 and 213), two loads within the same millisecond can get the same id. So "a new model never takes a still-resident id" is a property of the counter, not a promise the code makes.
- Overlapping `handleFile` calls are a concurrency concern. Each call is one atomic step, and the checkbox is read once for it.
- Multi-file drops and selections are not modelled: a pick carries only the first file, which may be missing.
- Strings are sequences of Unicode scalar values, while JavaScript strings are sequences of UTF-16 code units. Lengths therefore count code points, not JavaScript `.length`, and a lone surrogate cannot be written. This cannot change the dispatch or the rename. Both look only at the last four or five characters, and they match only when those are ASCII characters (see the `Text.ToLower` line below), each of which is a single code unit in either encoding.
- `Text.ToLower` lower-cases only ASCII `A`-`Z`, because JavaScript's full Unicode case mapping is out of reach. Outside ASCII, the only character whose lower case contains one of `.`, `i`, `f`, `c`, `r`, `a`, `g` is `İ` (U+0130). It becomes `i` followed by a combining dot, so it cannot end a name in `.ifc` either, and the dispatch outcome is the same.
- The library's handling of the bytes is not modelled. Whether a parse or load succeeds is a free outcome, independent of the bytes. A library load that throws is taken to leave no model resident.
- The dispose loop in `clearModels` is not modelled in its iteration order. A throwing `disposeModel` is described by the set of models disposed before it. The loop can only throw while a resident model is still undisposed, so an outcome that names every resident model as disposed counts as a clear that completes.

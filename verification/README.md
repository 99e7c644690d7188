# amv batch rename, modelled in Dafny

amv is a local web tool that renames files and folders in bulk. The user adds
files or folders to a batch, writes renaming rules in plain language, and asks
a local language model for a new name per entry. The user can then rename
everything in one pass through the browser's File System Access API. This
project models the pipeline behind that, as pure functions over sequences of
`FileItem` records:

- `types.dfy` (`Types`): the `FileItem` record, plus `HasNewName`. That is the
  shared "there is a suggestion and it differs from the original name" test.
  An empty suggestion counts as none.
- `strings.dfy` (`Strings`): the JavaScript string operations the pipeline
  relies on: `trim()` emptiness, `lastIndexOf`, `includes`, `toLowerCase`, and
  the parent path `path.substring(0, path.lastIndexOf('/')) || '/'`.
- `sorting.dfy` (`Sorting`): the display order (directories first, then by
  lower-cased original name), as a stable insertion sort, and `addFiles`.
- `file_list.dfy` (`FileList`): the panel.
  - A generation round clears every entry and asks once per entry. The abort
    point is an input.
  - Regenerating a single row.
  - Clearing the batch, the `hasSuggestions` test, the ReGen buttons, and the
    notice line with its text. Counts are written in decimal and read back,
    so the contracts can say which count a notice shows.
- `collisions.dfy` (`Collisions`): `checkForCollisions`.
  - A fold over the batch that groups suggested names by parent path.
  - Only the first registered entry of a group is ever matched, as with
    JavaScript's `find`.
- `rename.dfy` (`Rename`): the rename pass.
  - Each entry gets one outcome, in a fixed precedence.
  - `move` is an oracle.
  - Thrown errors that look like collisions are rewritten.
  - The counts pick one of three summaries.
- `server.dfy` (`Server`): `/api/suggest-names`, meaning the prompt and the
  fall-back to the original name on any model failure. Also `/api/rename-files`,
  meaning eligibility, one result per entry, and the target path.
- `file_manager.dfy` (`FileManager`): directory flattening
  (`processDirectoryHandle`), the picker and drag-and-drop.
  - A path names only the immediate parent directory.
  - Permissions and unreadable files are inputs.

Inputs stand in for everything outside the program:

- The chat model is a function from (position, prompt) to a reply.
- The client's view of a suggestion request is a function from position to
  `Answered(suggestion)` or `Failed(reason)`.
- Cancelling a round is `abortAt: Option<nat>`, the index at which the abort
  is first noticed.
- `handle.move(name)` is a function from (handle, name) to `Moved` or `Threw`.
- `fs.rename` is a function from (old path, new path) to an outcome.
- Directory trees and `getFile()` failures are fields of the `Node` tree.
  The permission granted to a dropped item is a field of
  `DropItem.Dropped(node, permission)`.

## Model

| member | source | states |
|---|---|---|
| Strings.LastIndexOf | src/web/components/file-list.ts:508 | the index of the last occurrence of the character, with no occurrence after it; -1 exactly when there is none |
| Strings.ParentPath | src/web/components/file-list.ts:508 | the parent key is never empty, and is `/` for a path without a slash |
| Strings.ParentOfJoined | src/web/components/file-manager.ts:258 | the parent key of `<dir>/<name>` is `<dir>` and its last segment is `<name>`, for a non-empty directory name and a name without slashes |
| Sorting.SortLeTransitive | src/web/components/file-list.ts:301-308 | the comparator is transitive (with `SortLeTotal`, a total preorder), so the stable sort is well defined |
| Sorting.Sort | src/web/components/file-list.ts:300-309 | the result is a permutation of the input in which every directory precedes every file and same-kind entries are in lower-cased name order |
| Sorting.SortedIff | src/web/components/file-list.ts:300-309 | comparator order is exactly "directories first, then names" |
| Sorting.SortSortedIsIdentity | src/web/components/file-list.ts:300-309 | a stable sort leaves a batch already in display order unchanged |
| Sorting.SortIdempotent | src/web/components/file-list.ts:300-309 | sorting twice is sorting once |
| Sorting.SortCommutesWithMap | src/web/components/file-list.ts:330-337 | rewriting entries without touching the directory flag or the original name commutes with sorting |
| Sorting.AddFiles | src/web/components/file-list.ts:295-298 | old and new entries together, nothing lost or duplicated, in display order |
| Sorting.AddNothingKeepsBatch | src/web/components/file-list.ts:295-298 | adding no entries to a batch in display order changes nothing |
| FileList.AddFiles | src/web/components/file-list.ts:295-298 | on the panel, only the batch changes, and it stays in display order |
| FileList.ClearFiles | src/web/components/file-list.ts:682-686 | an empty batch, no ReGen buttons, no notice |
| FileList.HasSuggestions | src/web/components/file-list.ts:688-690 | true exactly when some entry has a non-empty suggestion different from its original name |
| FileList.NoSuggestionsNothingToRename | src/web/components/file-list.ts:238 | when the Rename button is disabled for lack of suggestions, a pass would call `move` on nothing and rename nothing |
| FileList.ClearSuggestion | src/web/components/file-list.ts:330-336 | the reset keeps path, name, kind, original name and handle, and clears suggestion, status, error and the retrying flag |
| FileList.Answer | src/web/components/file-list.ts:388-398 | a reply sets only the suggestion: to the answer, or to nothing when the request failed |
| FileList.RoundStart | src/web/components/file-list.ts:330-337 | every entry starts the round cleared; on a batch in display order the reset keeps every entry in place |
| FileList.Loop | src/web/components/file-list.ts:341-401 | entries before the abort point hold their reply, entries from it on stay as they were, the length is kept, and the loop reports cancellation exactly when the abort point lies inside the batch |
| FileList.Generate | src/web/components/file-list.ts:311-402 | blank rules (lines 316-319) change nothing but the notice; otherwise the round sets the ReGen flag, entries before the abort point hold their reply (a failed request leaves only that entry without a suggestion and the loop goes on), entries from the abort point on stay cleared, and the notice is "cancelled" exactly when the abort was observed, otherwise "generated" |
| FileList.GenerateAnswersEveryEntry | src/web/components/file-list.ts:341-402 | without an abort, on a batch in display order, entry j keeps its identity and ends with exactly the suggestion its reply carried and no status |
| FileList.RetryBegin | src/web/components/file-list.ts:436-438 | only the chosen row changes: it is marked as retrying and loses suggestion, status and error |
| FileList.RetryFinish | src/web/components/file-list.ts:479-492 | only the chosen row changes: it stops retrying and takes the answer, or nothing on failure; the notice names the entry |
| FileList.Retry | src/web/components/file-list.ts:422-494 | blank rules (lines 427-430) change nothing but the notice; an index outside the batch changes nothing at all; otherwise only the chosen entry changes: it keeps its identity, has no status, is not retrying and carries the new suggestion or none, and the notice names it and says whether the request succeeded |
| FileList.RenameFiles | src/web/components/file-list.ts:550-553 | after a pass the batch holds the pass's entries in display order, the ReGen flag is off and the notice carries the pass's summary, whose collision count is the number of distinct marked paths |
| FileList.RenameKeepsPositions | src/web/components/file-list.ts:645-647 | the final sort moves nothing when the batch was in display order, since no outcome changes a sort key |
| FileList.RetryButtons | src/web/components/file-list.ts:277 | no row offers ReGen after a pass; every row offers it after a completed round once the panel is idle |
| FileList.DisplayOrderKept | src/web/components/file-list.ts:300-309 | display order is an invariant of the panel: adding, a round, a retry, a pass and clearing all keep it |
| FileList.Kind | src/web/components/file-list.ts:652-668 | a pass's notice is a success exactly when its summary is "all renamed" |
| FileList.Decimal | src/web/components/file-list.ts:653-668 | a count as a template literal writes it: a non-empty run of digits without a leading zero whose value (`DigitsValue`) is the count |
| FileList.ReadDecimal | src/web/components/file-list.ts:653-668 | a count written into a notice and followed by a word is read back as the same count |
| FileList.DetailText | src/web/components/file-list.ts:655-661 | each entry of `errorDetails` starts with its own count and mentions naming collisions exactly when it is the collision entry |
| Strings.JoinIncludes | src/web/components/file-list.ts:662 | whatever one of the joined strings includes, `join` includes |
| Strings.JoinLacks | src/web/components/file-list.ts:662 | a character found in neither the strings nor the separator is not in the joined text |
| FileList.JoinDetails | src/web/components/file-list.ts:662 | the joined details are empty exactly when there are no details |
| FileList.JoinShowsEveryDetail | src/web/components/file-list.ts:662 | every detail's text appears in the joined details |
| FileList.SummaryText | src/web/components/file-list.ts:652-669 | each summary shape starts with its own words ("Successfully renamed ", "Renamed ", "Failed to rename files. "), followed by a count that reads back as the successful count for the first two and the failed count for the third |
| FileList.SummaryMentionsCollisions | src/web/components/file-list.ts:655-668 | the notice of a pass mentions naming collisions exactly when nothing was renamed and collisions were counted, or a partial pass has the collision detail |
| FileList.Text | src/web/components/file-list.ts:483-492 | only "no notice" has empty text; a retry notice names the entry, a failed one also carries the reason; a pass's notice is its summary text |
| FileList.TwoFailedOneCollisionText | src/web/components/file-list.ts:668 | a pass with two failures and one counted collision reads "Failed to rename files. 2 operations failed (1 due to naming collisions)." |
| FileList.DuplicatePathNotice | src/web/components/file-list.ts:649-668 | two entries with the same path and target: the panel's notice after the pass is exactly that text |
| Collisions.Find | src/web/components/file-list.ts:517 | finds the first registered entry with that name, and finds nothing exactly when none has it |
| Collisions.CheckForCollisions | src/web/components/file-list.ts:496-547 | one message per entry that clashes with an earlier one, and `hasCollisions` exactly when some path is marked |
| Collisions.CollisionError.Text | src/web/components/file-list.ts:521 | the message starts with "Naming collision: " and names the scanned entry, the entry it clashed with and the shared target |
| Collisions.ScanInvariant | src/web/components/file-list.ts:502-525 | after any prefix of the batch, the registered names, the marked paths and the messages are exactly what the considered entries so far determine |
| Collisions.CollisionsSymmetric | src/web/components/file-list.ts:516-520 | two considered entries with the same parent key and the same suggestion both end up marked |
| Collisions.CollisionFilesExact | src/web/components/file-list.ts:502-525 | a path is marked exactly when two distinct considered entries share parent key and suggestion and one of them has that path |
| Collisions.CollisionFilesAreConsidered | src/web/components/file-list.ts:502-504 | every marked path is the path of a considered entry |
| Collisions.HasCollisionsIff | src/web/components/file-list.ts:543-547 | `hasCollisions` exactly when there are messages, exactly when paths are marked, exactly when some clash exists |
| Collisions.ErrorsPerLaterEntry | src/web/components/file-list.ts:516-521 | one message per entry whose key is already registered, each naming the first entry registered under that key |
| Collisions.IgnoresUnconsidered | src/web/components/file-list.ts:502-504 | replacing an entry with no new name by another entry with no new name changes nothing in the result |
| Collisions.ThreeWayCollision | src/web/components/file-list.ts:516-524 | three entries with one target give two messages, both naming the first entry, and mark all three paths |
| Rename.Decide | src/web/components/file-list.ts:573-603 | the precedence: marked path, then no new name, then no handle, then an attempt, each branch exactly characterised |
| Rename.FailureMessage | src/web/components/file-list.ts:620-629 | a thrown error that mentions an existing name or collision, or is an invalid-modification error, becomes the "already exists" message; any other keeps its own message or "Unknown error" (its partners `Rename.MoveMissingKept` and `Rename.PairsRuleOutCollision` show which messages pass through unchanged) |
| Rename.ProcessEntry | src/web/components/file-list.ts:570-643 | one outcome per entry, identity kept, `move` invoked exactly when the entry is eligible and the handle has `move`, success only when `move` returned |
| Rename.RenameLoop | src/web/components/file-list.ts:569-643 | after n entries: the n updated entries and results are those of the entries in batch order, successful plus failed is n, and no more entries succeeded than `move` was called on |
| Rename.LoopCalls | src/web/components/file-list.ts:569-643 | after n entries, `move` has been called on exactly the eligible indices below n, in increasing order |
| Rename.Summarize | src/web/components/file-list.ts:652-673 | the summary is "all renamed" exactly when nothing failed and no collision was counted, "partly" exactly when otherwise something was renamed, and "none" otherwise |
| Rename.RenamePass | src/web/components/file-list.ts:550-673 | one result per entry, successful plus failed equals the batch size, and `move` is called exactly on eligible entries; the marked paths are those of `Collisions.CheckForCollisions`, and the summary is `Rename.Summarize` of the two counts and `collisionFiles.size` (its consequences are stated by `Rename.DuplicatePathUndercount` and `Rename.SummariesAgreeOnUniquePaths`) |
| Rename.MoveOutcome | src/web/components/file-list.ts:607-642 | an entry that reaches `move`: success with `Renamed(original, new)` and the earlier error kept when `move` returns; the error status, and the error and result carrying the rewritten message of `Rename.FailureMessage`, when `move` throws; the error status with the "not supported" message itself as error and result when the handle lacks `move` |
| Rename.MoveMissingKept | src/web/components/file-list.ts:617-629 | the "not supported" error thrown for a handle without `move` mentions no existing name or collision, so the catch block records it unchanged |
| Rename.PairsRuleOutCollision | src/web/components/file-list.ts:623-625 | a message in which `l` is never followed by `l` or `r` includes none of "already exists", "collision" and "name is already in use" |
| Rename.OutcomePrecedence | src/web/components/file-list.ts:570-643 | each entry's status and error follow the precedence; `move` is never called for the first three cases; success exactly when the handle has `move` and `move` returned |
| Rename.MoveOnlyOnEligible | src/web/components/file-list.ts:605-617 | every `move` call is on an unmarked entry with a new name and a handle, at most once per entry and in batch order |
| Rename.FailedSplits | src/web/components/file-list.ts:573-643 | the failure count is the entries with a marked path plus the unmarked entries that failed |
| Rename.SummaryBreakdown | src/web/components/file-list.ts:649-673 | the corrected summary `Rename.IntendedSummary`, whose collision count is the entries that got the collision error: all / partly / none by the counts, and the breakdown's two parts add up to the failures |
| Rename.MarkedPathsVersusEntries | src/web/components/file-list.ts:649 | distinct marked paths never outnumber the entries that carry them, and the two agree when paths are unique |
| Rename.SummariesAgreeOnUniquePaths | src/web/components/file-list.ts:649-673 | with unique paths the pass's summary equals the corrected one |
| Rename.DuplicatePathUndercount | src/web/components/file-list.ts:649-669 | two entries sharing a path and a target both fail with the collision error, yet the pass's summary reports one collision where the corrected one reports two |
| Rename.NothingSuggested | src/web/components/file-list.ts:584-593 | a batch without new names marks nothing, calls `move` on nothing and warns on every entry |
| Server.ToWire | src/web/components/file-list.ts:351-357 | the request copy keeps path, name, kind, original name and suggestion, and drops the handle |
| Server.Prompt | src/server/index.ts:57-70 | the prompt holds the fixed header, the rules verbatim, the fixed middle, the name line and the fixed tail, at known positions |
| Server.NameLine | src/server/index.ts:64 | the name line starts with the original name and is longer exactly for directories |
| Server.PromptMarksDirectories | src/server/index.ts:64 | " (directory)" follows the name exactly for directories, so a file's and a directory's prompts differ |
| Server.SuggestOne | src/server/index.ts:72-104 | the original name is replaced only by a string suggestion with a non-whitespace character, and then by exactly that string |
| Server.SuggestNames | src/server/index.ts:56-107 | one output entry per input entry, in order, each equal to its input apart from the suggestion |
| Server.SuggestionFallback | src/server/index.ts:83-104 | a failed call, empty content, unparsable JSON, a missing, non-string or blank suggestion each leave the original name, entry by entry, without stopping the batch |
| Server.FallbackIsNotEligible | src/server/index.ts:126 | an entry whose model failed is skipped by the rename route |
| Server.EligibleMatchesClient | src/server/index.ts:126 | the server's eligibility test agrees with the client's `HasNewName` |
| Server.TargetPath | src/server/index.ts:133 | a path without a slash is replaced by the new name |
| Server.TargetKeepsParent | src/server/index.ts:132-133 | the target keeps the parent directory and swaps only the last component |
| Server.RenameFiles | src/server/index.ts:119-146 | one result per entry in order; ineligible entries get "No new name suggested"; eligible ones get the outcome of renaming the path to its target; the calls are exactly those of eligible entries |
| Server.RenameSuccessIff | src/server/index.ts:131-143 | success exactly when the entry is eligible and the rename did not throw |
| Server.CallsOnlyEligible | src/server/index.ts:125-135 | every rename call moves an eligible entry's path to its target |
| Server.NothingEligibleNoCalls | src/server/index.ts:126-129 | without eligible entries no file is touched |
| FileManager.ListingShape | src/web/components/file-manager.ts:253-278 | every listed entry is fresh, and its path is one directory's name, a slash and its own name |
| FileManager.Listing | src/web/components/file-manager.ts:251-284 | a listing is empty exactly when the loop stops at the first entry, and otherwise starts with that entry |
| FileManager.ReachedFile | src/web/components/file-manager.ts:254-263 | a file the loop reaches yields a file entry with path `<dirName>/<fileName>` |
| FileManager.ReachedDirectory | src/web/components/file-manager.ts:264-277 | a subdirectory the loop reaches yields its directory entry, followed at once by its own listing |
| FileManager.FailureKeepsPrefix | src/web/components/file-manager.ts:251-284 | an iteration failure is swallowed and what was listed before it is kept: the result is a prefix of the full listing |
| FileManager.NestedPathOmitsAncestors | src/web/components/file-manager.ts:258-268 | a file two levels down is named `<subdirectory>/<file>`, without the top directory |
| FileManager.SameNamedDirectoriesShareParent | src/web/components/file-manager.ts:264-277 | files in two different directories of the same name get equal paths and the same parent key |
| FileManager.Picker | src/web/components/file-manager.ts:96-156 | the picker always dispatches something; a picker failure, or an unreadable picked file, dispatches the error; otherwise it dispatches exactly the entries of the picked handles in order: a file as one entry named after itself, a directory as its listing with folder loading on and as one entry otherwise |
| FileManager.PickedShape | src/web/components/file-manager.ts:124-146 | with folder loading off, each picked handle gives one entry whose path is its bare name |
| FileManager.PickedItems | src/web/components/file-manager.ts:124-146 | the picked handles give entries exactly when every picked file is readable, and then exactly the entries of the handles in order |
| FileManager.UnreadablePickFails | src/web/components/file-manager.ts:126 | a picked file whose contents cannot be read ends the picker with the error event |
| FileManager.PickedDirectoryListing | src/web/components/file-manager.ts:136-138 | with folder loading on, a picked directory contributes its listing and no entry of its own; an empty pick dispatches an empty list |
| FileManager.DroppedItems | src/web/components/file-manager.ts:187-222 | an item that is not a granted handle contributes nothing; a granted one contributes what picking its handle would, except that an unreadable file is skipped instead of ending the drop |
| FileManager.Drop | src/web/components/file-manager.ts:167-245 | no data transfer dispatches nothing; no handle API shows the error; when the items contribute entries exactly those are dispatched, and when they contribute none (nothing granted, only unreadable files, only folders whose listing is empty) the error is shown instead |
| FileManager.UngrantedIgnored | src/web/components/file-manager.ts:190-221 | removing an item that is not a granted handle leaves the collected entries unchanged |
| FileManager.GrantedFileAdded | src/web/components/file-manager.ts:186-201 | a granted, readable dropped file makes the drop dispatch entries, its own entry `<name>` among them |
| FileManager.NothingGrantedShowsError | src/web/components/file-manager.ts:232-236 | a drop in which nothing is granted shows the error instead of adding entries |

## Left out

- Rendering, CSS, the busy flag `isLoading` and the five-second notice
  auto-clear are left out. `RetryButtonShown` takes the busy flag as an
  argument.
- Asynchrony and interleaving are left out. A round and a retry are modelled
  once their requests have settled; a retry is the composition of its two
  halves. Edits the user makes to the batch while requests are pending are
  not modelled.
- The outer `catch` blocks of the round (lines 403-409), of the pass (lines
  674-677) and of both server routes are left out. No step of the model
  throws outside the per-entry handlers.
- The text of HTTP failures (`HTTP <status>: <text>`, or the body's `error`
  and `details`) is left out. It arrives as the `reason` of a failed reply.
- A reply whose `files` array is empty makes the client throw. That counts as
  a failed request (`Failed`).
- The second loop of `checkForCollisions` (lines 527-541) has an empty body
  and does nothing. It is not modelled.
- Console logging is left out, and so is the list of collision messages the
  pass only logs.
- The logged `results` array of the pass is kept as data but never shown.
- Sorting.SortLe: `localeCompare` is replaced by code-point lexicographic order,
  and `toLowerCase` maps only ASCII letters. Locale collation and Unicode case
  mapping are outside the model.
- Server.TargetPath: Node's `path.join`/`dirname` normalisation is not
  modelled (`.`, `..` and repeated slashes). The target is the text up to and
  including the last slash, followed by the new name.
- The chat call's model name, temperature and response format are left out,
  and so is the OpenAI/Ollama client. The reply is an input.
- The rules and model name read from the rules panel are left out; the rules
  are a parameter. The rules panel, the theme toggle, `localStorage`, the CLI,
  the bundled `public/` copies and the older `components.ts` are not part of
  this model.
- File System Access API calls are inputs: `move`, `getFile`,
  `requestPermission`, directory iteration, the pickers and Node's
  `fs.rename`.
- An entry's name is taken to be the name of its handle. The source reads it
  from `getFile().name` for files.
- FileManager.Drop: a handle whose `getAsFileSystemHandle` throws and one that
  returns `null` are the same input (`NoHandle`). An item of a kind other than
  `file` is `NotAFile`.

## Findings

| source | as written | input that shows it | evidently intended | confidence | as-written member | corrected member |
|---|---|---|---|---|---|---|
| src/web/components/file-list.ts:649 | the summary's collision count is `collisionFiles.size`, the number of distinct colliding paths | two picked files both named `a.txt` (both have path `a.txt`), both suggested `b.txt`: both fail with the collision error, yet the notice reads "Failed to rename files. 2 operations failed (1 due to naming collisions)." (`FileList.DuplicatePathNotice`). In a partial pass the second one is reported as an "other failure" | count the entries that failed because of a collision, so that the breakdown adds up | not executed | Rename.DuplicatePathUndercount | Rename.SummaryBreakdown |

The pass and the panel keep the count as written (`Rename.RenamePass`,
`FileList.RenameFiles`); `Rename.IntendedSummary` is the corrected summary, and
`Rename.SummariesAgreeOnUniquePaths` shows the two differ only when entries
share a path.

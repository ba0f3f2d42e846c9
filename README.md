# Strudel workbench backend bookkeeping, in Dafny

This project models the state-keeping core of the Strudel workbench server
(`server/index.js`) and the folder tree of its track selector
(`workbench/components/TrackSelector.jsx`), and proves properties of both.

- **Track names** (`track_names.dfy`, `text.dfy`):
  - the `isValidName` rule;
  - the create route's normalisation, which appends `.strudel` and then validates;
  - the `// <basename>` starter text, with Node's `path.basename` for names ending in `.strudel`;
  - the JavaScript string operations these rely on.
- **Undo history** (`history.dfy`): one track's stack of full contents.
  - `pushHistory` refuses a duplicate of the top.
  - `getUndoDepth` is `max(0, length - 1)`.
  - Undo pops exactly one entry.
- **Track listing** (`track_listing.dfy`): `listTracks` is a recursive method over a directory tree given as a value. An unreadable directory contributes nothing. The result is sorted with JavaScript's default string order. The order is proved total, and the sorted result is proved unique.
- **Track backend** (`track_server.dfy`):
  - State: the tracks directory (`files`), `fileHistory`, `suppressWatcher` and `debounceTimers`.
  - Operations: the GET, PUT, create and undo routes, the debounced watcher (`Notify` replaces a pending timer; `Fire` runs one), and the start-up snapshot.
  - Each operation is a step function from old state to new state, reply and broadcast events. The `Server` class performs the same operation on its fields and is proved equal to its step function.
  - An invariant is kept by every step: non-empty stacks with no equal neighbours, timers only for track files, only valid names suppressed.
  - Round trips are proved: a save is ingested by the watcher and undone by one undo; the echo of an undo's write is swallowed.
- **Terminal sessions** (`terminal.dfy`, `sessions.dfy`):
  - the choice of `claude` launch arguments from the persisted track-to-session map: resume, new session with a prompt, or none;
  - the sniffing of resize messages;
  - the `sessions` table through create, WebSocket attach, idle timeout, terminal exit, socket close, `DELETE`, `/kill` and `killAllSessions`.
  - Terminals, sockets and timers are opaque handles passed in. The calls made on them are returned as effects.
- **Folder tree** (`track_tree.dfy`): `buildTree` as nested loops over an arena of folder records. The outer loop is `BuildTree` and the directory walk is `Walk`. Index 0 is the root, and a folder's `folders` map sends child names to indices. The results are proved:
  - the root reaches exactly the folder paths of the input;
  - each folder holds exactly its tracks, in input order;
  - there is one node per path;
  - the file count equals the track count.
  
  The two display-name rules are modelled and related to the starter text's base name.

Inputs from the outside world are parameters:
- file contents are the `files` map;
- a failed write is a boolean;
- the timer, terminal and socket handles are numbers the caller supplies;
- the session tokens `crypto.randomUUID` would draw are strings the caller supplies;
- `JSON.parse`'s result is an `Option<Json>`;
- the listing broadcast by the watcher is a sequence; `ListsTracks` states when it is the directory's listing.

The model follows the code in these places, where the behaviour differs from what one might expect:
- Undo pops the stack and marks the name suppressed *before* its write, and a failed write does not roll either back (server/index.js:166-172).
- A save does not mark the name suppressed, so the watcher takes the saved content into the history (server/index.js:196-206).
- `DELETE` and `/kill` do not clear the idle timer. A later timeout finds the entry gone and does nothing (server/index.js:325-343).
- A fresh token is saved before the terminal is spawned, so when `spawn` throws the token stays, and the next create for the track resumes a session that never started (server/index.js:284-299).
- The stored session token is looked up for any non-empty `trackName`, valid or not, so an invalid name with a stored token still resumes (server/index.js:266-271).

## Model

| member | source | states |
|---|---|---|
| TrackNames.ValidNameCharacterization | server/index.js:45-51 | a name is valid exactly when it has the `.strudel` suffix, does not start with `/`, has no backslash and no two adjacent dots (both directions) |
| TrackNames.InvalidNameExamples | server/index.js:45-51 | `../escape.strudel`, `/abs.strudel`, `a\b.strudel` and `noext` are refused |
| TrackNames.ValidNameExample | server/index.js:45-51 | the nested name `folder/song.strudel` is accepted |
| TrackNames.IsValidName | server/index.js:45-51 | the validity rule: non-empty, no backslash, no `..`, not starting with `/`, ending in `.strudel`; characterised by `ValidNameCharacterization` |
| TrackNames.CreateName | server/index.js:181 | the normalised name always ends in `.strudel` |
| TrackNames.CreateTarget | server/index.js:179-182 | an empty request, and only it, is "Missing name"; success yields the normalised name, which is valid |
| TrackNames.CreateNameIdempotent | server/index.js:181 | normalising twice equals normalising once; a name already ending in `.strudel` is unchanged |
| TrackNames.CreateNameStrip | server/index.js:181 | removing the suffix from a normalised name gives back the request when the suffix was appended |
| TrackNames.CreateTargetOfValid | server/index.js:179-182 | a valid name is accepted unchanged |
| TrackNames.CreateTargetAccepts | server/index.js:179-182 | every non-empty, non-absolute request without backslash, `..` or a trailing dot is accepted |
| TrackNames.CreateTargetTrailingDot | server/index.js:181-182 | a request ending in `.` turns into a name with `..` and is refused |
| TrackNames.CreateTargetRejectsUnsafe | server/index.js:181-182 | a request that is absolute, has a backslash or has `..` is refused as invalid |
| TrackNames.BaseNameOfComponent | server/index.js:188 | the base name plus `.strudel` is the last path component, and it holds no `/` |
| TrackNames.StarterOfCreated | server/index.js:188-189 | creating `dir/song` writes the starter line `// song` |
| TrackNames.BaseName | server/index.js:188 | Node's `path.basename(name, '.strudel')`: the last component less the extension, except a component equal to it; its properties are `BaseNameOfComponent` |
| TrackNames.StarterText | server/index.js:188-189 | the starter `// <basename>` and a newline; `StarterOfCreated` and `StarterSize` state what it holds |
| TrackNames.CreateSongExample | server/index.js:179-182 | `a/song` is created as `a/song.strudel` |
| TrackNames.SongStarterExample | server/index.js:188-189 | the starter text of `a/song` is `// song` and a newline |
| Text.ContainsIffOccurs | server/index.js:47-48 | the left-to-right `includes` scan succeeds exactly when the substring occurs at some index |
| Text.ContainsChar | server/index.js:47 | `includes` of a one-character string is membership of that character |
| Text.ContainsPair | server/index.js:48 | `includes('..')` is having two adjacent dots |
| Text.Contains | server/index.js:47-48 | `s.includes(sub)` as a scan from the left; `ContainsIffOccurs`, `ContainsChar` and `ContainsPair` state what it finds |
| Text.StartsWith | server/index.js:49 | `s.startsWith(prefix)`: the prefix is an initial segment of the string; `ValidNameCharacterization` states the `/` case and `Contains` scans with it |
| Text.EndsWith | server/index.js:50 | `s.endsWith(suffix)`, as also used at lines 37, 82 and 181: the suffix is the final segment; `CreateName`, `StripSuffix` and `LastPieceSuffix` state what holds of it |
| Text.Split | workbench/components/TrackSelector.jsx:6 | `split` yields at least one piece and no piece contains the separator |
| Text.JoinSplit | workbench/components/TrackSelector.jsx:6 | joining the pieces of `split` with the separator gives back the string |
| Text.SplitNoSep | workbench/components/TrackSelector.jsx:6 | a string without the separator splits into itself alone |
| Text.LastPieceSuffix | workbench/components/TrackSelector.jsx:41 | `split('/').pop()` has no `/`, ends the string, and is the whole string or follows a `/` |
| Text.StripSuffix | workbench/components/TrackSelector.jsx:41 | the end-anchored removal of a suffix drops it exactly when the string ends with it |
| Text.LastPiece | workbench/components/TrackSelector.jsx:41 | `split('/').pop()`, the last piece of the split; its properties are `LastPieceSuffix` |
| Text.Utf8Size | server/index.js:278-279 | the UTF-8 length of a string, what `stat.size` reports for a file written as `'utf8'`; between one and four bytes per character |
| History.PushTop | server/index.js:57-63 | after a push the content is on top and the entries below are unchanged |
| History.Push | server/index.js:57-63 | `pushHistory` on one stack: append unless equal to the top; its properties are `PushTop`, `PushGrowth` and `PushIdempotent` |
| History.Depth | server/index.js:65-68 | `getUndoDepth` on one stack, `max(0, length - 1)`; related to undo by `UndoLowersDepth` |
| History.Undo | server/index.js:163-167 | the undo route on one stack: refused with at most one entry, else the top popped; its properties are `UndoLowersDepth` and `UndoAfterPush` |
| History.PushKeepsNoAdjacentDuplicates | server/index.js:60-62 | a push never creates two equal neighbours |
| History.PushGrowth | server/index.js:57-63 | pushing the top is a no-op, anything else adds exactly one entry; for a non-empty stack the depth grows exactly when the content differs from the top |
| History.PushIdempotent | server/index.js:61 | pushing the same content twice equals pushing it once |
| History.UndoLowersDepth | server/index.js:164-167 | undo succeeds exactly when the depth is positive, lowers it by one and leaves a non-empty stack that the popped top completes |
| History.UndoAfterPush | server/index.js:166-167 | undo right after a push of new content restores the stack |
| History.PushAllDistinct | server/index.js:57-63 | pushes of contents that each differ from the previous one are all kept in order |
| History.UndoTimesPrefix | server/index.js:164-166 | `k` undos, while one entry would remain, drop exactly the top `k` entries |
| History.HistoryMonotonic | server/index.js:57-68 | after `n` distinct pushes the depth grew by `n`, `n` undos return to the old stack, undoing to depth 0 leaves the oldest entry, and nothing more can be undone |
| History.FirstHistory | server/index.js:57-63 | for a name with no history yet, pushes of contents that each differ from the previous one make exactly that stack, with depth one less than their number, and undoing to depth 0 leaves the first content |
| TrackListing.BelowReflexive | server/index.js:41 | the default string order is reflexive |
| TrackListing.BelowTotal | server/index.js:41 | the default string order is total |
| TrackListing.BelowAntisymmetric | server/index.js:41 | the default string order is antisymmetric |
| TrackListing.BelowTransitive | server/index.js:41 | the default string order is transitive |
| TrackListing.Below | server/index.js:41 | the comparison of `sort()` without a comparator: a prefix first, else the first differing character decides; `BelowReflexive`, `BelowTotal`, `BelowAntisymmetric` and `BelowTransitive` make it a total order |
| TrackListing.Insert | server/index.js:41 | insertion adds exactly one copy of the name and keeps a sorted list sorted |
| TrackListing.SortNames | server/index.js:41 | `sort()` returns a sorted permutation of its input |
| TrackListing.SortedUnique | server/index.js:41 | two sorted permutations of the same names are equal, so the listing's order is determined |
| TrackListing.ScanEntriesAreTracks | server/index.js:33-39 | every collected name ends in `.strudel` and lies under the prefix |
| TrackListing.ScanEntryAreTracks | server/index.js:34-39 | the same for one entry: a file by its suffix, a readable directory by recursion |
| TrackListing.ScanEntries | server/index.js:33-40 | the names `listTracks` collects from a directory's entries, in order, before sorting; `ScanEntriesAreTracks` states what they are |
| TrackListing.ScanEntry | server/index.js:34-39 | one entry's names: a directory's collected names under its relative path, a `.strudel` file's relative path, nothing otherwise; `ScanEntryAreTracks` states what they are |
| TrackListing.JoinPath | server/index.js:34 | the relative name `prefix/name`, or `name` at the top level; `ScanEntriesAreTracks` shows collected names lie under the prefix |
| TrackListing.Scan | server/index.js:31-42 | the collected names of a directory, none when it cannot be read; `ListTracks` sorts them |
| TrackListing.ListTracks | server/index.js:30-43 | the recursive scan returns a sorted permutation of the `.strudel` names found, and nothing for an unreadable directory |
| TrackListing.ListingDetermined | server/index.js:30-43 | any result of the scan equals the sorted collected names and holds only track names |
| TrackServer.UndoDepth | server/index.js:65-68 | one less than the length of the name's stack, and 0 when it has no stack or an empty one |
| TrackServer.StackOf | server/index.js:58-59 | the stack of a name, the empty stack when it has none; `UndoDepth` and `PushedHistory` build on it |
| TrackServer.PushedHistory | server/index.js:57-63 | after `pushHistory` the name's stack, created if missing, is exactly `Push` of the old one (the content on top, the entries below kept, an equal top not pushed again), and other stacks are untouched |
| TrackServer.GetTrack | server/index.js:150-158 | invalid name is 400, a missing file 404, otherwise the file's content (all cases, both directions) |
| TrackServer.SaveStep | server/index.js:196-206 | the name is checked (400), then the content (400), then the write (500 on failure); only success changes the file; history, suppression and timers never change |
| TrackServer.CreateStep | server/index.js:178-194 | a missing name (400), an invalid normalised name (400) and an existing track (409) are refused without writing, a failed write answers 500; success writes the starter text under the normalised name |
| TrackServer.UndoStep | server/index.js:160-176 | invalid name 400, depth 0 "Nothing to undo" (404); a failed write 500; otherwise one entry popped and the name suppressed even if the write fails; success writes the new top back and announces it with the lowered depth |
| TrackServer.NotifyStep | server/index.js:81-85 | non-track names are ignored; a track's pending timer is replaced, and the cleared one is returned |
| TrackServer.Pending | server/index.js:82-86 | the timer that runs is the name's current one: a timer cleared at line 83 never runs, since `FireStep` with a timer that is not pending changes nothing; `DebounceCoalesces` and `DebounceCoalescesMany` use it |
| TrackServer.FireStep | server/index.js:85-104 | a stale timer does nothing; otherwise the timer entry goes, and a suppressed name only loses its mark, a readable file is pushed and announced, a missing one is announced deleted and its history dropped, each ending with the listing |
| TrackServer.WritesPreserveInv | server/index.js:178-206 | save, create and notification keep the backend invariant |
| TrackServer.UndoPreservesInv | server/index.js:160-176 | undo keeps the backend invariant |
| TrackServer.FirePreservesInv | server/index.js:85-104 | the watcher keeps the backend invariant |
| TrackServer.InitialHistoryStep | server/index.js:70-76 | each listed readable track adds its content as a one-entry stack |
| TrackServer.InitialHistory | server/index.js:70-76 | the start-up history: every listed track that can be read, alone on its stack; `InitialHistoryStep` and `InitialInv` state its properties |
| TrackServer.InitialInv | server/index.js:70-76 | the start-up snapshot satisfies the invariant |
| TrackServer.SaveIsIngested | server/index.js:90-98 | a save, its notification and its timer push the saved content and announce it with the new depth |
| TrackServer.UndoEchoSuppressed | server/index.js:90-93 | the watcher event caused by an undo's own write leaves history and files alone, consumes the mark and only broadcasts the listing |
| TrackServer.SaveThenUndo | server/index.js:160-176 | saving new content and letting the watcher run, then undoing, restores the history and the previous content and lowers the depth back |
| TrackServer.DebounceCoalesces | server/index.js:83-85 | a second notification clears the first timer, which then fires as a no-op, and the second fires like a single notification |
| TrackServer.NotifyAll | server/index.js:81-85 | a burst of notifications for one name; `DebounceCoalescesMany` states its effect |
| TrackServer.DebounceCoalescesMany | server/index.js:83-85 | after any burst of notifications only the last timer is pending, every other timer fires as a no-op, and the last fires exactly as a single notification would |
| TrackServer.NotifyIgnoresNonTracks | server/index.js:82 | a notification for a name not ending in `.strudel` changes nothing |
| TrackServer.CreateExistingWritesNothing | server/index.js:184 | creating an existing track answers 409 and leaves the state unchanged |
| TrackServer.CreateThenGet | server/index.js:188-192 | a created track reads back as its starter text |
| TrackServer.ListsTracks | server/index.js:29-42 | what `listTracks()` returns over a directory holding `files`: sorted, each name once, exactly the `.strudel` names of the directory |
| TrackServer.ListingUnique | server/index.js:29-42 | two listings of the same directory are equal, so the broadcast listing is determined by the files |
| TrackServer.FireListsDirectory | server/index.js:85-104 | when the broadcast listing is the directory's listing, a fire ends with the listing of the directory after it; after a delete the track is no longer listed, after a change it is |
| TrackServer.Server.constructor | server/index.js:70-76 | the start-up loop snapshots every readable listed track, with no timers or marks |
| TrackServer.Server.PushHistory | server/index.js:57-63 | the stack of the name, created if missing, gets the content pushed; nothing else changes |
| TrackServer.Server.Get | server/index.js:150-158 | agrees with `GetTrack` |
| TrackServer.Server.Save | server/index.js:196-206 | performs `SaveStep` on the fields and keeps the invariant |
| TrackServer.Server.Create | server/index.js:178-194 | performs `CreateStep` on the fields and keeps the invariant |
| TrackServer.Server.Undo | server/index.js:160-176 | performs `UndoStep` on the fields and keeps the invariant |
| TrackServer.Server.Notify | server/index.js:81-85 | performs `NotifyStep` on the fields and keeps the invariant |
| TrackServer.Server.Fire | server/index.js:85-104 | performs `FireStep` on the fields and keeps the invariant |
| Terminal.KnownToken | server/index.js:266 | a token is found exactly for a non-empty track name with a non-empty stored token |
| Terminal.SelectLaunch | server/index.js:260-291 | a stored token is resumed; otherwise a valid track gets a new session id, remembered, with a prompt naming `tracks/<name>`; otherwise no arguments |
| Terminal.PromptMentionsTrack | server/index.js:281-283 | both prompts contain the track's path |
| Terminal.Prompt | server/index.js:281-283 | the two first prompts, for a new track and for editing; `PromptMentionsTrack` shows both name the track |
| Terminal.FreshThenResume | server/index.js:266-288 | after a fresh launch for a valid track, the next launch for it resumes the new token |
| Terminal.LaunchKeepsRegistry | server/index.js:285-288 | a launch never forgets or changes another track's token and adds at most the requested track |
| Terminal.PromptChoice | server/index.js:276-283 | the new-track prompt is chosen exactly for a file under 50 bytes; an unreadable file gets the edit prompt |
| Terminal.StarterCountsAsNew | server/index.js:276-283 | a track holding only its starter text, whose size is the starter's UTF-8 length, gets the new-track prompt exactly when its base name takes under 46 bytes |
| Terminal.StarterSize | server/index.js:188-189 | the starter text takes four bytes more than its base name |
| Terminal.AsciiStarterCountsAsNew | server/index.js:279 | for an ASCII base name the starter is under 50 bytes exactly when the base name has under 46 characters |
| Terminal.Classify | server/index.js:381-393 | a message is a resize exactly when it starts with `{`, parses, has type `resize` and truthy `cols` and `rows`; otherwise it is written verbatim |
| Terminal.Truthy | server/index.js:386 | JavaScript truthiness of a parsed JSON value: false, null, 0 and the empty string are falsy; `ZeroSizeIsInput` uses it |
| Terminal.IsResizeCommand | server/index.js:386 | a parsed object with `type` equal to `resize` and truthy `cols` and `rows`; `Classify` states that exactly these messages resize |
| Terminal.KeystrokesForwarded | server/index.js:383 | a message not starting with `{` is always input |
| Terminal.ZeroSizeIsInput | server/index.js:386 | a resize with zero columns is typed into the terminal |
| Terminal.UnparsableIsInput | server/index.js:384-390 | text that does not parse is input |
| Sessions.CreateStep | server/index.js:257-323 | the persisted map is updated as selected; when the spawn succeeds the session enters unattached with its idle timer and the terminal is spawned with the selected arguments; when it throws the route fails and no session is entered |
| Sessions.Without | server/index.js:330 | `sessions.delete(id)`, as also at lines 307, 319, 340, 399 and 410: exactly `id` is gone, every other session is kept unchanged and the persisted map is untouched |
| Sessions.FailedSpawnKeepsToken | server/index.js:284-299 | after a failed spawn for a valid track no session exists, yet the next create for that track resumes the token that was saved |
| Sessions.AttachStep | server/index.js:358-376 | an unknown id is refused with no change; otherwise the socket is attached and the idle timer cleared |
| Sessions.IdleTimeoutStep | server/index.js:302-309 | the timer kills and removes a session exactly when it is present with no socket |
| Sessions.PtyExitStep | server/index.js:313-320 | terminal exit clears the timer, closes an attached socket, and removes the entry |
| Sessions.WsCloseStep | server/index.js:395-400 | socket close kills the terminal and removes the entry |
| Sessions.DeleteStep | server/index.js:325-332 | unknown id is 404 with no change; otherwise kill, close an attached socket, remove |
| Sessions.KillStep | server/index.js:335-343 | kill and close when present; the entry is gone afterwards either way |
| Sessions.Teardown | server/index.js:328-330 | killing the terminal, then closing an attached socket; `DeleteStep` and `KillStep` answer with it |
| Sessions.UnattachedIsReaped | server/index.js:302-311 | a created session no socket attaches to is killed by its timer; other sessions are untouched |
| Sessions.AttachedSurvivesTimeout | server/index.js:373-375 | attaching clears the timer, and even a late timeout leaves the attached session alone |
| Sessions.DeleteMatchesKill | server/index.js:325-343 | DELETE and `/kill` do the same to a known id; on an unknown id DELETE answers 404 and `/kill` does nothing |
| Sessions.KillIdempotent | server/index.js:335-343 | a second `/kill` of the same id does nothing |
| Sessions.RemovedStaysRemoved | server/index.js:302-320 | once an id is gone, timeout, exit, close and attach do nothing and DELETE answers 404 |
| Sessions.RemovalKeepsRegistry | server/index.js:325-343 | no removal touches the persisted session map |
| Sessions.SessionManager.constructor | server/index.js:255 | the table starts empty over the persisted map |
| Sessions.SessionManager.Create | server/index.js:257-323 | performs `CreateStep` on the fields |
| Sessions.SessionManager.Attach | server/index.js:358-376 | performs `AttachStep` on the fields |
| Sessions.SessionManager.IdleTimeout | server/index.js:302-309 | performs `IdleTimeoutStep` on the fields |
| Sessions.SessionManager.PtyExit | server/index.js:313-320 | performs `PtyExitStep` on the fields |
| Sessions.SessionManager.WsClose | server/index.js:395-400 | performs `WsCloseStep` on the fields |
| Sessions.SessionManager.Delete | server/index.js:325-332 | performs `DeleteStep` on the fields |
| Sessions.SessionManager.Kill | server/index.js:335-343 | performs `KillStep` on the fields |
| Sessions.SessionManager.KillAll | server/index.js:405-412 | the table ends empty, the persisted map unchanged, and the effects are exactly each session's timer clear, terminal kill and socket close |
| Sessions.Shutdown | server/index.js:407-410 | what shutdown does to one session: clear its idle timer, then the teardown; `SessionManager.KillAll` emits exactly these effects |
| TrackTree.Dirs | workbench/components/TrackSelector.jsx:6-8 | the directory components of a track contain no `/` |
| TrackTree.RootIffNoSlash | workbench/components/TrackSelector.jsx:6-12 | a track has no directories exactly when it has no `/` |
| TrackTree.DirsThenLast | workbench/components/TrackSelector.jsx:6 | the directories and the last piece, joined by `/`, give back the track |
| TrackTree.FilesAtMembers | workbench/components/TrackSelector.jsx:5-12 | a folder's files are exactly the tracks whose directories are its path |
| TrackTree.RootHoldsFlatTracks | workbench/components/TrackSelector.jsx:5-12 | the root's files are exactly the tracks without a `/` |
| TrackTree.BuildTree | workbench/components/TrackSelector.jsx:3-15 | the root reaches a folder exactly for each non-empty directory prefix of some track; each folder holds its tracks in input order; distinct paths reach distinct folders; the file count is the track count |
| TrackTree.Walk | workbench/components/TrackSelector.jsx:7-11 | the walk creates missing folders and reuses existing ones, ending at the folder of the track's directories with every prefix present; its result is exactly the own-key walk `DescendOwn` |
| TrackTree.DescendAsWritten | workbench/components/TrackSelector.jsx:8-11 | the walk as written, with plain-object lookup, keeps child indices in the arena when it succeeds |
| TrackTree.DescendAsWrittenFails | workbench/components/TrackSelector.jsx:8-11 | the walk as written fails only when a directory is named like an inherited object member |
| TrackTree.DescendOwn | workbench/components/TrackSelector.jsx:8-11 | the walk with own-key folder lookup: reuse a child, else create it; child indices stay in the arena, which only grows |
| TrackTree.AsWrittenAgreesOffInherited | workbench/components/TrackSelector.jsx:8-11 | for directory names outside the inherited object members, the walk as written succeeds with exactly the arena and folder of the intended walk |
| TrackTree.ConstructorFolderThrows | workbench/components/TrackSelector.jsx:8-11 | on `constructor/a.strudel` the walk as written throws, although `constructor` is a folder the tree must hold |
| TrackTree.NestedDisplayName | workbench/components/TrackSelector.jsx:41 | a nested track shows its last component, without `.strudel` when present, and never a `/` |
| TrackTree.RootDisplayName | workbench/components/TrackSelector.jsx:106 | a root track shows its name without `.strudel` when present |
| TrackTree.DisplayNamesAgreeAtRoot | workbench/components/TrackSelector.jsx:104-106 | for tracks without `/`, the only ones at the root, both rules agree |
| TrackTree.DisplayNameIsBaseName | workbench/components/TrackSelector.jsx:41 | a track's display name is the base name the create route writes into its starter line, provided its last component is not `.strudel` itself (for `dir/.strudel` the display name is empty while the base name is `.strudel`) |

## Left out

- File system I/O is replaced by the `files` map. A failed read counts as a missing file, and a failed write is a boolean input. Other read errors are not told apart from absence.
- `fs.watch` and the per-directory watcher registration (server/index.js:107-143) are left out, because they only feed names into `handleFileChange`, which is modelled as `Notify`.
- `setTimeout`, `clearTimeout` and the 300 ms delay are left out: timers are handles and firing is an explicit step, so time itself plays no part.
- The SSE hub, its keepalive and the initial listing on connect are left out: broadcasts are returned as events.
- Express routing, status codes and response bodies are reduced to the outcome kinds of `Status` and `NotFound`.
- The `/api/shorten` route is left out, because it only forwards to an external service.
- node-pty and `crypto.randomUUID` are foreign calls: handles and tokens are parameters and calls are effects. The `onData` forwarding of terminal output to the socket is not modelled.
- Reading and writing `.claude-sessions.json` is an in-memory map. A failing write (which would throw from the route) is not modelled.
- `path.join` normalisation is left out: names are used as given, so `a//b.strudel` and `a/b.strudel` are different tracks here.
- A failing `mkdirSync` in the create route is left out.
- Request values are taken to be strings. A non-string `name`, `trackName` or `content` is only modelled as missing content for the save route.
- `JSON.parse` is an input. A `pty.resize` that throws is not modelled.
- Each route is one atomic step, although its `fs.readFile`/`fs.writeFile` callback runs later (server/index.js:154, 171-175, 190, 202). Interleavings are not modelled: two undos sent before the first write finishes both report the depth after both pops, and two writes finishing out of order can leave the file different from the top of the history.
- Signal handlers are left out; only `killAllSessions` is modelled.
- The React components, hooks, SplitPane's ratio clamp (floating point) and ShareDialog's `btoa` are left out, as browser and UI code.
- TrackListing.SortNames: orders strings by character. JavaScript compares UTF-16 code units, so the orders differ for characters outside the Basic Multilingual Plane.
- Sessions.WsCloseStep: does nothing for an id that is already gone. The source's close handler captures the session object and calls `kill` on its terminal once more even after another path removed the entry; the entry is gone either way.
- Sessions.SessionManager.KillAll: states the effects as a collection, every session's and only those. It does not state the order, which follows the Map's insertion order in the source.
- Terminal.KnownToken: looks up stored tracks only. The source indexes a plain object parsed from JSON, so a track name such as `constructor` would also find an inherited member; no valid track name is such a name, but the lookup is done for any non-empty name.
- Terminal.Classify: the message is text. The source tests the first byte of a Buffer against `0x7b`, which agrees because `{` is a one-byte character in UTF-8.
- TrackTree.BuildTree: models the evidently intended own-key folder lookup, not the plain-object lookup as written. The as-written walk is `TrackTree.DescendAsWritten`; see Findings.

## Findings

| source | as written | input that shows it | evidently intended | confidence | as-written member | corrected member |
|---|---|---|---|---|---|---|
| workbench/components/TrackSelector.jsx:8-11 | folders are plain objects, so `node.folders[name]` also finds members inherited from `Object.prototype`; for such a name no folder is created, `node` becomes the inherited function or prototype, and the next `folders` lookup or the final `files.push` throws a TypeError | the track list `["constructor/a.strudel"]` | look up own folders only, so every directory name gets its own folder | not executed | TrackTree.ConstructorFolderThrows | TrackTree.BuildTree |

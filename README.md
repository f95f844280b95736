# DotAll note manager: browse and editor screens

DotAll is a React Native note manager. It keeps plain-text notes in one folder,
`${RNFS.DownloadDirectoryPath}/DotAll`. Its logic sits in two screens:

- The browse screen (`screens/HomeScreen.tsx`) lists the folder. A long press
  enters selection mode. The selection bar duplicates or deletes the selected
  files in a best-effort loop, or cancels.
- The editor screen (`screens/EditScreen.tsx`) holds one document: a file
  name, a buffer, a saved flag and the text selection. Saving creates the
  folder when it is missing, deletes the file at the original name's
  effective path (the name plus `.txt` when it has no dot) when the name was
  changed, and writes the buffer under the name with `.txt` appended when it
  has no dot. The back press is guarded while there is unsaved work. A tab
  button splices a tab into the buffer.

The project has three modules:

- `Storage` (`storage.dfy`) stands in for `react-native-fs`. The folder is a
  `Store`: a flag saying whether the directory exists, and a map from file
  name to text. The path of a name is `Download/DotAll/<name>`. Which calls
  fail is decided by a `Platform` value. It holds a set of paths refused by
  every call (permissions, I/O errors), a set of paths refused only by
  `writeFile` (a full disk lets an unlink through and then fails the write),
  and whether `copyFile` overwrites an existing destination.
  Each call is a pure step function (`MkdirStep`, `UnlinkStep`, `WriteStep`,
  `CopyStep`, `ReadStep`) returning an outcome and the new store. The
  `FileSystem` class methods `Mkdir`, `Unlink`, `WriteFile`, `CopyFile` and
  `ReadFile` are proved equal to these step functions. `Exists` is proved
  equal to `PathExists`, and `ReadDir` has a contract of its own on the
  listing.
- `Editor` (`edit_screen.dfy`) has the effective-name rule, the save
  transition `Save` over the store, the tab splice, and the `Session` class
  whose methods are the screen's handlers.
- `Home` (`home_screen.dfy`) has the `_copia` name derivation, the selection
  list operations, the batch fold `Run`, and the `Browser` class whose
  methods are the screen's handlers. `Run` covers both batch loops: each path
  is tried in list order, and a failing call only adds its path to the log.

## Model

| member | source | states |
|---|---|---|
| Storage.PathOf | screens/EditScreen.tsx:89 | the path template `${pasta}/${name}` is one character longer than the folder and the name together, and NameOfPathOf recovers the name from it; the same template builds the original path at line 91 and the duplicate path at HomeScreen.tsx:99 |
| Storage.PathExists | screens/EditScreen.tsx:94-97 | `RNFS.exists` is true on every file in the folder and on the folder exactly when it exists, and on no other path |
| Storage.NameOf | screens/EditScreen.tsx:89 | a path found inside the folder is exactly the folder path, a slash and the name |
| Storage.NameOfPathOf | screens/EditScreen.tsx:89-91 | the name is recovered from the path `${pasta}/${name}`, so distinct names have distinct paths |
| Storage.MkdirStep | screens/EditScreen.tsx:95 | creating the folder succeeds unless the device refuses, and keeps the files |
| Storage.UnlinkStep | screens/HomeScreen.tsx:82 | unlink fails with NotFound on a missing file and with StorageUnavailable on a refused path; otherwise exactly that name is removed; a failure changes nothing |
| Storage.WriteStep | screens/EditScreen.tsx:101 | a write needs the folder and a path refused neither by every call nor by writes, then maps the name to the text; a failure changes nothing |
| Storage.CopyStep | screens/HomeScreen.tsx:101 | a copy needs an existing source and accepted paths, and refuses an existing destination unless the device overwrites; on success the destination holds the source's current text |
| Storage.ReadStep | screens/HomeScreen.tsx:127 | reading succeeds exactly on an existing, accepted file and returns its text |
| Storage.FileSystem.Exists | screens/EditScreen.tsx:94 | `RNFS.exists` answers for the folder itself or a file in it |
| Storage.FileSystem.Mkdir | screens/EditScreen.tsx:95 | the object's new state and outcome are those of MkdirStep |
| Storage.FileSystem.Unlink | screens/HomeScreen.tsx:82 | the object's new state and outcome are those of UnlinkStep |
| Storage.FileSystem.WriteFile | screens/EditScreen.tsx:101 | the object's new state and outcome are those of WriteStep |
| Storage.FileSystem.CopyFile | screens/HomeScreen.tsx:101 | the object's new state and outcome are those of CopyStep |
| Storage.FileSystem.ReadFile | screens/HomeScreen.tsx:127 | the result is that of ReadStep |
| Storage.FileSystem.ReadDir | screens/HomeScreen.tsx:44 | the listing succeeds exactly when the folder exists and is not refused; it then holds every file once, each with the path built from its name |
| Editor.OrEmpty | screens/EditScreen.tsx:31-33 | `route.params?.x \|\| ''` is the passed string, or empty when none was passed |
| Editor.Intercepts | screens/EditScreen.tsx:62 | a saved session is never intercepted, and neither is one with an empty name and buffer |
| Editor.RemovesOriginal | screens/EditScreen.tsx:97 | the original is never removed when it is empty or equal to the typed name, both compared raw |
| Editor.SaveSucceeds | screens/EditScreen.tsx:83-101 | a save can only succeed with a non-empty name whose effective path the device does not refuse; Save proves it is exactly the success condition |
| Editor.Effective | screens/EditScreen.tsx:88 | the effective name always contains a dot and starts with the typed name; it equals the typed name exactly when that has a dot, and is the name plus `.txt` otherwise |
| Editor.EffectiveIdempotent | screens/EditScreen.tsx:88-90 | applying the default-extension rule twice gives the same name as once |
| Editor.Save | screens/EditScreen.tsx:82-112 | an empty name fails with ValidationError and changes nothing; the save succeeds exactly under SaveSucceeds; on success the folder exists and the effective name maps to the buffer, and a renamed original is gone unless both effective names coincide; without a rename no file is removed; no other entry changes; a failure leaves the files as they were or without the original |
| Editor.SaveTwiceIsSaveOnce | screens/EditScreen.tsx:82-102 | after a successful save, saving again with the same name and buffer on the same device returns the same outcome and store |
| Editor.SaveAgainKeepsStore | screens/EditScreen.tsx:82-102 | after a successful save, a second save with the same name and buffer that succeeds on any device leaves the store as the first save left it |
| Editor.FailedWriteKeepsDeletion | screens/EditScreen.tsx:97-112 | when the original was deleted and the write then fails, whether its path is refused for every call or only for writes, the deletion stays — also when both effective names are the same file |
| Editor.DotlessOriginalSurvives | screens/EditScreen.tsx:88-101 | opening a dot-less "note" and saving it as "x" deletes an unrelated `note.txt`, writes `x.txt` and leaves "note" with its text |
| Editor.RenameOntoItselfLosesFile | screens/EditScreen.tsx:97-112 | saving "note" as "note.txt" unlinks `note.txt` itself; when the write then fails, the save fails and `note.txt` is gone |
| Editor.Clamp | screens/EditScreen.tsx:118-119 | a slice index within the string is kept, and one past its end becomes the length, as JavaScript's `slice` does |
| Editor.TabInsert | screens/EditScreen.tsx:117-125 | the selection collapses just after the inserted tab; for a selection inside the buffer, the text is the part before the start, a tab, and the part after the end |
| Editor.TabInsertExample | screens/EditScreen.tsx:117-125 | a tab typed in "ab" after "a" gives "a\tb" with the cursor at 2 |
| Editor.Session.constructor | screens/EditScreen.tsx:31-35 | the name and original name come from the route (empty when absent), and the session counts as saved exactly when a non-empty name was passed |
| Editor.Session.OnBackPress | screens/EditScreen.tsx:62 | the back press is intercepted exactly when the session is unsaved and the name or the buffer is non-empty |
| Editor.Session.ChangeFileName | screens/EditScreen.tsx:45 | only the name changes; the saved flag is not reset |
| Editor.Session.ChangeContent | screens/EditScreen.tsx:154 | only the buffer changes; the saved flag is not reset |
| Editor.Session.ChangeSelection | screens/EditScreen.tsx:127-131 | only the selection changes |
| Editor.Session.HandleTabPress | screens/EditScreen.tsx:117-125 | the buffer and selection become those of TabInsert |
| Editor.Session.HandleSave | screens/EditScreen.tsx:82-113 | the storage calls run in the code's order and leave the store and outcome of Save; the saved flag becomes true exactly when the write succeeded and is never cleared |
| Editor.OpenEditBack | screens/EditScreen.tsx:34 | a file opened from the list counts as saved, so after any edit of its text the back press is not intercepted |
| Home.LastSegment | screens/HomeScreen.tsx:97 | `split('/').pop()` is the longest suffix without a slash, and a slash comes right before it when it is shorter than the path |
| Home.LastSegmentOfPath | screens/HomeScreen.tsx:97 | the last segment of a file's path is its name |
| Home.ExtensionAt | screens/HomeScreen.tsx:98 | `\.[^.]+$` matches at a dot that has at least one character after it, and the name does not end in a dot |
| Home.FirstMatch | screens/HomeScreen.tsx:98 | the leftmost position where `(\.[^.]+)?$` matches is either the end or the start of a final extension |
| Home.CopyName | screens/HomeScreen.tsx:98 | the new name is six characters longer, and has no slash when the old one had none |
| Home.LastDot | screens/HomeScreen.tsx:98 | the index of the last dot, or none exactly when there is no dot |
| Home.ExtensionAtLastDot | screens/HomeScreen.tsx:98 | an extension can only start at the last dot |
| Home.FirstMatchFinds | screens/HomeScreen.tsx:98 | the leftmost match is the final extension when there is one |
| Home.FirstMatchAtEnd | screens/HomeScreen.tsx:98 | the leftmost match is the empty match at the end when there is no dot, or the last dot is the final character |
| Home.CopyNameBeforeExtension | screens/HomeScreen.tsx:98 | with a final extension, `_copia` goes right before its dot |
| Home.CopyNameAppends | screens/HomeScreen.tsx:98 | without a final extension, `_copia` is appended |
| Home.CopyNameAtLastDot | screens/HomeScreen.tsx:98 | when a character follows the last dot, `_copia` is inserted before that dot |
| Home.CopyNameExampleExtension | screens/HomeScreen.tsx:98 | "note.txt" becomes "note_copia.txt" |
| Home.CopyNameExampleSeveralDots | screens/HomeScreen.tsx:98 | "a.b.c" becomes "a.b_copia.c" |
| Home.CopyNameExamplesWithoutExtension | screens/HomeScreen.tsx:98 | "note" becomes "note_copia" and "file." becomes "file._copia" |
| Home.DupName | screens/HomeScreen.tsx:97-98 | the duplicate name of a path is the copy name of its last segment: six characters longer than it, with no slash |
| Home.DupPath | screens/HomeScreen.tsx:99 | the duplicate path lies in the folder and names the duplicate name |
| Home.DupPathDiffers | screens/HomeScreen.tsx:97-99 | the duplicate name is the last segment plus six characters, has no slash, and its path differs from the source path |
| Home.DupNameOfListed | screens/HomeScreen.tsx:97-98 | for a file of the folder the duplicate name is the copy name of the file's own name |
| Home.Without | screens/HomeScreen.tsx:67 | the filter removes every occurrence of the path, keeps every other path, leaves a list without it unchanged, and keeps a list free of repeats |
| Home.WithoutConcat | screens/HomeScreen.tsx:67 | the filter keeps the order of the other paths: it works piecewise on a concatenation |
| Home.WithoutAppended | screens/HomeScreen.tsx:67-69 | filtering ignores the path appended at the end |
| Home.Toggled | screens/HomeScreen.tsx:65-71 | toggling flips the path's membership, keeps every other path and the list without the path, and keeps a list free of repeats |
| Home.ToggleTwiceRestores | screens/HomeScreen.tsx:65-71 | toggling an unselected path twice restores the list |
| Home.ToggleTwiceMovesToEnd | screens/HomeScreen.tsx:65-71 | toggling a selected path twice moves it to the end |
| Home.Apply | screens/HomeScreen.tsx:82-101 | one iteration is the `unlink` of line 82 or the `copyFile` of line 101, to the renamed path; neither creates or removes the folder |
| Home.Next | screens/HomeScreen.tsx:80-86 | one iteration logs its path exactly when its call fails, and keeps the folder and the store's consistency |
| Home.Run | screens/HomeScreen.tsx:80-86 | the log holds only selected paths and at most one per iteration; the folder flag and consistency are kept |
| Home.RunStep | screens/HomeScreen.tsx:80 | one more path runs exactly one more iteration |
| Home.RunAppend | screens/HomeScreen.tsx:80-86 | a failure does not stop the loop: the run over two lists is the run over the first, then over the second from where it left the store, with both logs joined |
| Home.DoomedStep | screens/HomeScreen.tsx:80-82 | one more selected path dooms at most its own name |
| Home.DeleteRemovesExactly | screens/HomeScreen.tsx:80-86 | after the delete loop the store is the old one minus exactly the names of the selected paths that are in the folder and not refused |
| Home.DeleteFailures | screens/HomeScreen.tsx:80-86 | the selected paths, in list order, that have no file or that the device refuses |
| Home.DeleteLogsFailures | screens/HomeScreen.tsx:80-86 | on a selection without repeats, the delete loop logs exactly DeleteFailures of the store it started from |
| Home.DeleteLeavesNoSelected | screens/HomeScreen.tsx:80-86 | no selected file the device lets go is left, and every entry that no selected path names keeps its text |
| Home.DuplicateFrame | screens/HomeScreen.tsx:96-105 | the duplicate loop removes nothing, adds only duplicate names, keeps the text of every entry that is not a duplicate name, and of every entry when the device does not overwrite |
| Home.Missing | screens/HomeScreen.tsx:100-104 | the paths listed are exactly the selected paths with no file |
| Home.NotTargeted | screens/HomeScreen.tsx:99 | a name no selected path is renamed to is not a copy target |
| Home.CleanPrefix | screens/HomeScreen.tsx:96 | a prefix of a clean selection is clean |
| Home.CleanLastStep | screens/HomeScreen.tsx:96-105 | in a clean selection, earlier copies leave the next source as it was and its destination free |
| Home.DuplicateCleanLogsMissing | screens/HomeScreen.tsx:100-104 | on a clean selection exactly the missing sources are logged, in list order |
| Home.DuplicateCleanCopies | screens/HomeScreen.tsx:96-105 | on a clean selection each existing source gets a duplicate holding its text |
| Home.DuplicateCleanSkipsMissing | screens/HomeScreen.tsx:96-105 | on a clean selection a missing source gets no duplicate, and the loop goes on |
| Home.DuplicateCleanKeeps | screens/HomeScreen.tsx:96-105 | on a clean selection every existing file keeps its text |
| Home.CopyEach | screens/HomeScreen.tsx:96-105 | the copy loop leaves the store and log of Run over the selection |
| Home.Browser.constructor | screens/HomeScreen.tsx:34-38 | the screen starts loading, with no entries, no selection and selection mode off |
| Home.Browser.Load | screens/HomeScreen.tsx:42-52 | a successful listing replaces the entries; a failed one keeps the old snapshot; both spinners stop either way |
| Home.Browser.Refresh | screens/HomeScreen.tsx:58-63 | pull-to-refresh reloads like Load and leaves selection mode with an empty list |
| Home.Browser.Toggle | screens/HomeScreen.tsx:65-71 | the selected list becomes Toggled of the old list |
| Home.Browser.LongPress | screens/HomeScreen.tsx:118-121 | a long press turns selection mode on and toggles the path, rather than only adding it |
| Home.Browser.Tap | screens/HomeScreen.tsx:122-138 | in selection mode a tap toggles the path; otherwise the selection is kept and the tap opens the editor with the file's name and text, or reports a failure when reading fails |
| Home.Browser.Cancel | screens/HomeScreen.tsx:169 | cancel turns selection mode off and keeps the selected list |
| Home.Browser.DeleteSelected | screens/HomeScreen.tsx:73-93 | when not confirmed nothing changes; when confirmed, the store and log are those of Run over the old selection, selection mode is off, the list is empty, and the listing is reloaded |
| Home.Browser.DuplicateSelected | screens/HomeScreen.tsx:95-109 | the store and log are those of Run with the duplicate name over the old selection; selection mode is off, the list is empty, and the listing is reloaded |

A clean selection (`Home.CleanSelection`) is one where:

- every path lies in the folder;
- no source is a copy target;
- the targets are pairwise distinct and not yet taken;
- the device refuses none of the paths.

## Behaviour that follows the code

In these places the model follows the code, where one might expect the app to
act otherwise:

- The rename check compares the raw names as typed
  (`screens/EditScreen.tsx:97`). Renaming "note" to "note.txt" therefore
  deletes `note.txt` and then writes it again. When that write fails, the
  file is lost (`Editor.RenameOntoItselfLosesFile`).
- The original path is built from the original name's effective name
  (`screens/EditScreen.tsx:90-91`), while the browse screen opens the editor
  with the file's real name (`screens/HomeScreen.tsx:129`). An opened
  dot-less file, such as a duplicate "note_copia", therefore survives its own
  rename, and an unrelated `<name>.txt` is deleted in its place
  (`Editor.DotlessOriginalSurvives`).
- `originalFileName` has no setter (`screens/EditScreen.tsx:32`). After a
  save under a new name, the next save still compares against the name the
  editor was opened with.
- `isSaved` is only ever set to true (`screens/EditScreen.tsx:102`). Editing
  the name or the text does not clear it, so an opened file that is then
  edited leaves without the discard prompt (`Editor.OpenEditBack`).
- A write that fails after the original was unlinked is not undone
  (`Editor.FailedWriteKeepsDeletion`).
- The cancel button only clears selection mode
  (`screens/HomeScreen.tsx:169`). The selected list survives it.
- The duplicate name gets no collision check. The copy's fate when the
  destination exists is left to the platform (`Platform.copyOverwrites`).
  When two selected paths share a duplicate name, the later copy wins or
  fails.

## Left out

- Rendering, styles, `FlatList`, the `FloatingAction` new-note button and the
  image-preview test (`screens/HomeScreen.tsx:112`): these are presentation
  only. A new note is an editor opened with `Params(None, None)`.
- Navigation (`navigate`, `goBack`, `setOptions`), `BackHandler` registration
  and the focus and layout effects: these are framework wiring. Only the
  back-press predicate is modelled.
- `Alert.alert` dialogs:
  - the delete confirmation is a boolean argument of `DeleteSelected`;
  - error notices are returned outcomes;
  - the discard dialog and the success dialog's `goBack` are not modelled.
- `console.error` is modelled differently at each of its calls:
  - in the two batch loops (`screens/HomeScreen.tsx:84`, `:103`) it is the
    returned list of failed paths;
  - in `handleSave` (`screens/EditScreen.tsx:110`) it is the returned
    `Outcome`;
  - on a failed tap (`screens/HomeScreen.tsx:133`) it is `OpenFailed`;
  - after a failed listing in `carregarArquivos` (`screens/HomeScreen.tsx:47`)
    it is dropped: `Browser.Load` returns nothing, and only the kept snapshot
    shows the failure.
- Characters outside the Basic Multilingual Plane. A Dafny `char` is one
  Unicode scalar value. JavaScript's `slice` offsets and the text input's
  selection count UTF-16 code units. `Editor.TabInsert` and `Editor.Clamp`
  agree with the source only when every character of the buffer is a single
  code unit. For "😀b" with the cursor after the emoji, the source's offset is
  2 and inserts the tab before "b"; the model takes offset 2 as the end of
  the buffer.
- The real behaviour of `react-native-fs`:
  - UTF-8 decoding;
  - permissions, which are the `Platform.denied` set;
  - metadata of listing items: an `Entry` has only a name and a path.
- Storage.FileSystem.Exists: the call never fails. The source awaits it in
  the same `try` block, but a failed existence check is not modelled.
- Storage.FileSystem.ReadDir: the order of the entries is left open, because
  the platform chooses it.
- Subdirectories:
  - the folder is flat: a name containing `/` is a key like any other;
  - a path outside the folder makes unlink, write and copy fail with
    NotFound.
- async/await scheduling and React's batched state updates. Each handler is
  a sequence of steps. The reload that ends a batch or a refresh runs to
  completion, and so does clearing the selection.
- `App.tsx`, the navigator and its folder creation: `App.tsx` is not part of
  this model. The same exists-then-mkdir step is modelled inside
  `Editor.Save`.
- Home.CopyEach: the loop receives the name computation of its body
  (`screens/HomeScreen.tsx:97-99`) as a function argument.
  `Browser.DuplicateSelected` passes `DupName`, which is that computation.
- Home.DuplicateCleanCopies: the text of each duplicate is stated only for a
  clean selection. For any other selection, only the bounds of
  `Home.DuplicateFrame` are proved, because an earlier copy may overwrite a
  later source.

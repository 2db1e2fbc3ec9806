# Folder sync engine — a Dafny model

This project models the synchronization engine of an Android folder-sync app, together with the
list and status logic of its view model. The engine keeps two document trees in step. The trees
are reached through storage-provider handles (`DocumentFile`), not through file paths.

- **Two-way sync.** Both trees are flattened into maps from `/`-separated relative path to file.
  The union of the paths is walked once:
  - a file present on one side only is copied to the same path on the other side;
  - when both sides have the path, the copy with the greater modification time wins, but only if
    the two times differ by more than 2000 ms.
- **One-way sync** (source to destination). The source tree is walked directory by directory:
  - directories are found, or created, in the destination;
  - a file is copied when missing from the destination;
  - a file is replaced when the source copy is newer than the destination copy by more than 2000 ms.
- **View model.** It keeps the list of sync pairs, the status line and the busy flag. It runs the
  engine for one pair or for all pairs.

How the source is represented:

- A tree is a `Documents.Node` value: a file, a directory, or a tombstone left by a deletion.
- A handle is the sequence of child indices from the root (`Documents.Loc`).
- The two trees of a pair live in the class `Documents.DocumentStore`. The engine's operations
  change that class in place.
- Failures of the storage provider are attributes of the documents:
  - a directory that is not `listable` makes `listFiles` and `findFile` throw;
  - a directory that is not `writable` makes `createFile` and `createDirectory` return null;
  - a file that is not `readable` opens no input stream.
- A root that cannot be resolved, or that does not exist, is `Deleted`.
- The clock (`now`, the timestamp given to created documents) is a parameter.
- In the view model, the engine is a parameter: a function from a pair's two folder URIs to a
  `SyncResult`.

Each loop of the source is a Dafny method. Each method is proved equal to a specification
function:

- `BuildFileMap` is proved equal to `Flatten`;
- `CopyFileToPath` to `CopyToPath`;
- the two-way loop to the fold `Run`;
- `SyncDirectories` and `SyncFile` to `SyncDirs` and `SyncFileSpec`;
- `SyncAll` to `TotalsOf`.

The properties are proved about those functions.

The model follows the code as written, including where the code does something other than
its own comments say, or fails in a way its callers cannot see:

- **Two-way update.** The comments say the older copy is updated with the newer content
  (FolderSyncEngine.kt:92 and :214, "update dest", "Update an existing file with newer content"),
  by deleting it and re-creating it (FolderSyncEngine.kt:220). The code's `updateFile` deletes
  the older copy, and then asks `findParentDirectory`
  for its parent. That lookup always returns null, so the update returns false. The older copy
  is therefore lost, the file exists only on the newer side, and `filesUpdated` stays 0.
  `TwoWay.StepCases`, `TwoWay.RunNeverUpdates`, `Engine.TwoWayReport` and
  `Engine.TwoWayDeletesOnlyOlder` state this.
- **Two-way errors.** The two-way branch (FolderSyncEngine.kt:51-109) never adds to `errors`: a
  copy or update that fails only leaves its counter as it was (:70-80, :93-102). A two-way sync
  of two existing roots therefore always reports success.
- **Unreadable source files.** `openInputStream(...)?.use` (FolderSyncEngine.kt:200-204 and
  :351-355) skips a null stream without failing. The file already created (:195-198, :346-349)
  stays empty, and is counted as copied (:206, :322).
- **Unnamed children.** `buildFileMap` skips an unnamed child (`?: continue`,
  FolderSyncEngine.kt:154). The one-way pass does not: for an unnamed subdirectory `name!!`
  throws (:279-280), which ends the scan of the enclosing directory with an "Error scanning"
  message (:299-301), and an unnamed file makes `syncFile` return `ERROR` with no message (:317).

## Model

| member | source | states |
|---|---|---|
| Paths.Split | app/src/main/java/com/larsaars/foldersync/FolderSyncEngine.kt:179-181 | splitting on `/` keeps empty parts and always gives at least one part |
| Paths.SplitPartsSeparatorFree | app/src/main/java/com/larsaars/foldersync/FolderSyncEngine.kt:179 | no part of a split contains `/` |
| Paths.JoinSplit | app/src/main/java/com/larsaars/foldersync/FolderSyncEngine.kt:179 | joining the split parts with `/` gives back the relative path |
| Paths.SplitJoin | app/src/main/java/com/larsaars/foldersync/FolderSyncEngine.kt:155 | splitting names without `/` that were joined with `/` gives back the names |
| Paths.ChildPathParts | app/src/main/java/com/larsaars/foldersync/FolderSyncEngine.kt:155 | a path built by `buildFileMap` splits into its parent path's parts plus the child's name (just the name at the root) |
| Documents.FindFile | app/src/main/java/com/larsaars/foldersync/FolderSyncEngine.kt:186 | `findFile` yields the first existing child with that name, or none when no child has it |
| Documents.CreateFacts | app/src/main/java/com/larsaars/foldersync/FolderSyncEngine.kt:190-198 | creation succeeds iff the directory exists and is writable; a failed creation changes nothing; the new document becomes its last child, reached past the directory's names plus its own; every handle apart from the new one keeps its document, and nothing already in the tree moves or changes |
| Documents.DocumentStore.CreateChild | app/src/main/java/com/larsaars/foldersync/FolderSyncEngine.kt:195-198 | creates in one tree as `Create` does and leaves the other tree unchanged |
| Documents.DocumentStore.Delete | app/src/main/java/com/larsaars/foldersync/FolderSyncEngine.kt:221 | leaves a tombstone at the handle in one tree and leaves the other tree unchanged |
| FileMaps.Get | app/src/main/java/com/larsaars/foldersync/FolderSyncEngine.kt:64-65 | a lookup finds an entry iff the key is in the map, and the entry it returns is stored under that key |
| FileMaps.Put | app/src/main/java/com/larsaars/foldersync/FolderSyncEngine.kt:161 | storing adds exactly the entry's key and keeps keys unique; the key then maps to the new entry (last writer wins) and every other key keeps its entry |
| FileMaps.PutAll | app/src/main/java/com/larsaars/foldersync/FolderSyncEngine.kt:159 | `putAll` yields the union of both key sets, keeps keys unique, and adds no entry from elsewhere |
| FileMaps.PutAllGet | app/src/main/java/com/larsaars/foldersync/FolderSyncEngine.kt:159 | after `putAll`, each key of the added map (stored once there) maps to the added entry, and every other key keeps the entry it had |
| FileMaps.SizeIsKeyCount | app/src/main/java/com/larsaars/foldersync/FolderSyncEngine.kt:58 | a map's size is the number of its distinct relative paths |
| FileMaps.Flatten | app/src/main/java/com/larsaars/foldersync/FolderSyncEngine.kt:146-169 | the flattened map never holds two entries under one relative path |
| FileMaps.BuildFileMap | app/src/main/java/com/larsaars/foldersync/FolderSyncEngine.kt:146-169 | `buildFileMap`'s loop and recursion compute exactly `Flatten`, and an unlistable directory yields an empty map |
| FileMaps.FlattenSound | app/src/main/java/com/larsaars/foldersync/FolderSyncEngine.kt:153-162 | every entry is a file reachable through listable directories and named documents, and its key is the `/`-joined names along the way |
| FileMaps.FlattenComplete | app/src/main/java/com/larsaars/foldersync/FolderSyncEngine.kt:153-162 | every such reachable file has its path among the keys |
| FileMaps.KeysArePaths | app/src/main/java/com/larsaars/foldersync/FolderSyncEngine.kt:146-169 | a string is a key of the flattened map iff it is the path of a reachable file |
| Transfer.CopyIntoGrows | app/src/main/java/com/larsaars/foldersync/FolderSyncEngine.kt:183-198 | a copy, whether it succeeds or fails, never removes, moves or alters anything already in the tree |
| Transfer.CopyIntoPlaces | app/src/main/java/com/larsaars/foldersync/FolderSyncEngine.kt:179-206 | on success, the new file holds the source's bytes (none when its stream does not open), and the names along its handle are the path's parts |
| Transfer.CopyToPathPlaces | app/src/main/java/com/larsaars/foldersync/FolderSyncEngine.kt:172-212 | on success, the file, named after the path's last part and holding the source's bytes, sits at a handle that was not valid before, under directories named after the other parts; nothing already in the tree is removed, moved or altered |
| Transfer.CopyIntoOpen | app/src/main/java/com/larsaars/foldersync/FolderSyncEngine.kt:184-206 | in a tree with no failing directory, a copy always succeeds and leaves no failing directory |
| Transfer.CopyFileToPath | app/src/main/java/com/larsaars/foldersync/FolderSyncEngine.kt:172-212 | the walk over the path's directories leaves the tree as `CopyToPath` says, reports its success, and leaves the other tree unchanged |
| Transfer.UpdateDeletesTarget | app/src/main/java/com/larsaars/foldersync/FolderSyncEngine.kt:215-243 | an update reports failure, leaves a tombstone at the target, and leaves every handle apart from the target as it was |
| Transfer.UpdateFile | app/src/main/java/com/larsaars/foldersync/FolderSyncEngine.kt:215-243 | `updateFile` deletes the target and returns false, as `UpdateEffect` says |
| TwoWay.UnionPathsVisitsEachOnce | app/src/main/java/com/larsaars/foldersync/FolderSyncEngine.kt:61 | the path union visits each path of either map exactly once |
| TwoWay.StepCases | app/src/main/java/com/larsaars/foldersync/FolderSyncEngine.kt:63-108 | one iteration, per case: a one-sided path is copied and counted only on success; a two-sided path within 2000 ms changes nothing; a two-sided path older by more than 2000 ms on one side has that copy deleted (the update's re-creation always fails), the newer side untouched, and nothing counted |
| TwoWay.RunNeverUpdates | app/src/main/java/com/larsaars/foldersync/FolderSyncEngine.kt:91-103 | a two-way pass never counts an update |
| TwoWay.RunCopiesAtMostOneSided | app/src/main/java/com/larsaars/foldersync/FolderSyncEngine.kt:67-81 | a pass counts at most one copy per one-sided path |
| TwoWay.RunCopiesEveryOneSided | app/src/main/java/com/larsaars/foldersync/FolderSyncEngine.kt:67-81 | when both trees are failure-free directories, every one-sided path is copied and counted, and both trees stay failure-free |
| TwoWay.RunPlacesEveryOneSided | app/src/main/java/com/larsaars/foldersync/FolderSyncEngine.kt:61-109 | between failure-free trees, after a pass over some paths, each tree holds a copy (named along the path, with the original's bytes) of every file of the other tree whose path was passed and which it lacks; of the files whose path was passed, exactly those older by more than 2000 ms than the other tree's file of their path are deleted, and every other file of either map, the newer copy and copies within the tolerance included, stays intact |
| TwoWay.RunConvergedIsIdle | app/src/main/java/com/larsaars/foldersync/FolderSyncEngine.kt:82-106 | when every path is on both sides within the tolerance, the pass changes nothing and counts nothing |
| TwoWay.OneSidedCounts | app/src/main/java/com/larsaars/foldersync/FolderSyncEngine.kt:67-81 | over paths without repetition, the one-sided count is the number of distinct one-sided paths |
| TwoWay.UnionOneSided | app/src/main/java/com/larsaars/foldersync/FolderSyncEngine.kt:61-81 | over the path union, the one-sided paths are the keys of one map missing from the other |
| OneWay.SyncFileSpec | app/src/main/java/com/larsaars/foldersync/FolderSyncEngine.kt:310-343 | a file's sync keeps the earlier log as a prefix and adds at most one message |
| OneWay.PlaceFile | app/src/main/java/com/larsaars/foldersync/FolderSyncEngine.kt:319-334 | a successful `syncFile` keeps every document of the folder, except that the same-named one it replaces is deleted, and appends at most the new file, holding the source's bytes |
| OneWay.SyncFileWhen | app/src/main/java/com/larsaars/foldersync/FolderSyncEngine.kt:310-343 | the outcome in each case: unnamed file, error with no message; unlistable folder, error with a message; a missing file in a writable folder, Copied; a namesake older by more than 2000 ms in a writable folder, Updated; in both, the folder becomes `PlaceFile`'s; a namesake not older, Skipped with nothing changed; a folder that refuses creation, error with a message, after the deletion when updating |
| OneWay.SyncFileCases | app/src/main/java/com/larsaars/foldersync/FolderSyncEngine.kt:310-343 | Copied means no same-named document existed and the new file is the folder's last child; Updated means the same-named document was older by more than 2000 ms, is now deleted, and the new file is last; Skipped means no change; only an error logs a message, and at most one |
| OneWay.SyncDirs | app/src/main/java/com/larsaars/foldersync/FolderSyncEngine.kt:262-304 | the log only grows; copies plus updates never exceed documents scanned, which never exceed the documents below the source; at most one error per scanned document plus one |
| OneWay.SyncChildren | app/src/main/java/com/larsaars/foldersync/FolderSyncEngine.kt:275-297 | the same bounds for the loop from any child on |
| OneWay.SyncDirsMirrors | app/src/main/java/com/larsaars/foldersync/FolderSyncEngine.kt:262-304 | from a source whose directories all list and whose documents all have names, unique in each directory, into a destination folder whose folders all list, accept creation and hold unique names, and where each source subdirectory's namesake (if any) is a directory meeting the same condition: no error, every document below the source scanned, only the destination folder changes, and each source file is then the first document of its name there, either the new copy with the source's bytes or the original namesake not older by more than 2000 ms, with each source subdirectory mirrored likewise; every other original document is kept, and only documents named like a source document are deleted or added |
| OneWay.SyncChildrenMirrors | app/src/main/java/com/larsaars/foldersync/FolderSyncEngine.kt:274-297 | the child loop keeps the mirror invariant: the children passed are mirrored, the folder keeps every original document not named like one of them, and the rest of the loop adds no error and scans every remaining document |
| OneWay.DirFound | app/src/main/java/com/larsaars/foldersync/FolderSyncEngine.kt:278-287 | a source subdirectory whose namesake directory exists is scanned into it, which then mirrors it, and nothing else changes |
| OneWay.DirCreated | app/src/main/java/com/larsaars/foldersync/FolderSyncEngine.kt:278-287 | a source subdirectory with no namesake gets a new directory, appended, which then mirrors it |
| OneWay.PlaceFileMirrors | app/src/main/java/com/larsaars/foldersync/FolderSyncEngine.kt:310-343 | `syncFile` into such a folder leaves it so, changes only documents of the file's name, and leaves the file mirrored |
| OneWay.ScanChild | app/src/main/java/com/larsaars/foldersync/FolderSyncEngine.kt:275-297 | one iteration of the child loop advances `SyncChildren` by one child, or ends the scan as it does, and keeps copies plus updates within the documents scanned |
| OneWay.CopyFile | app/src/main/java/com/larsaars/foldersync/FolderSyncEngine.kt:345-356 | creates the named file in the folder, false where the source throws, and leaves the source tree unchanged |
| OneWay.SyncFile | app/src/main/java/com/larsaars/foldersync/FolderSyncEngine.kt:310-343 | `syncFile` leaves the tree, log and outcome of `SyncFileSpec`, and leaves the source tree unchanged |
| OneWay.SyncDirectories | app/src/main/java/com/larsaars/foldersync/FolderSyncEngine.kt:262-304 | the recursive scan leaves the tree, log and counters of `SyncDirs`, and leaves the source tree unchanged |
| Engine.Synchronize | app/src/main/java/com/larsaars/foldersync/FolderSyncEngine.kt:19-138 | success iff no error; a missing source root (checked first) or destination root fails with its one message, all counters 0, and changes nothing; one-way never changes the source and respects the scan bounds |
| Engine.SyncPath | app/src/main/java/com/larsaars/foldersync/FolderSyncEngine.kt:63-108 | one iteration of the two-way loop performs `Step` on the trees in place |
| Engine.TwoWayPass | app/src/main/java/com/larsaars/foldersync/FolderSyncEngine.kt:61-109 | the two-way loop over the path union performs `Run` |
| Engine.SyncFolders | app/src/main/java/com/larsaars/foldersync/FolderSyncEngine.kt:19-138 | `syncFolders` leaves both trees and returns the report as `Synchronize` says |
| Engine.TwoWayReport | app/src/main/java/com/larsaars/foldersync/FolderSyncEngine.kt:51-129 | a two-way sync of existing roots succeeds with no error and no update, scans the larger tree's number of file paths, and copies at most the number of one-sided paths |
| Engine.FlattenedIsMapOf | app/src/main/java/com/larsaars/foldersync/FolderSyncEngine.kt:146-169 | each entry of a flattened root is a file of it at the entry's handle, below the root, and entries of distinct paths lie at handles apart |
| Engine.TwoWayCopiesEveryMissing | app/src/main/java/com/larsaars/foldersync/FolderSyncEngine.kt:51-109 | between failure-free trees, every one-sided path is copied and counted: the other tree then holds a file named after the path's last part, with the original's bytes, under directories named after the other parts, and the original stays where it was; both trees stay failure-free |
| Engine.OneWayMirrors | app/src/main/java/com/larsaars/foldersync/FolderSyncEngine.kt:111-129 | a one-way sync under the conditions of `SyncDirsMirrors` succeeds with no error, scans every source document, leaves the source unchanged, and leaves a destination that mirrors the source |
| Engine.TwoWayDeletesOnlyOlder | app/src/main/java/com/larsaars/foldersync/FolderSyncEngine.kt:82-106 | between failure-free trees, a two-way sync deletes exactly each file whose path the other tree also holds with a file newer by more than 2000 ms; every other file of both trees, the newer copy and both copies within the tolerance included, stays where it was |
| Engine.TwoWayIdleWhenInSync | app/src/main/java/com/larsaars/foldersync/FolderSyncEngine.kt:82-106 | trees with the same paths and timestamps within the tolerance are left unchanged, with nothing copied or updated |
| ViewModel.MaxId | app/src/main/java/com/larsaars/foldersync/FolderSyncViewModel.kt:42 | the largest id, 0 for an empty list |
| ViewModel.IndexOfId | app/src/main/java/com/larsaars/foldersync/FolderSyncViewModel.kt:48 | the first index holding the id, or none when no pair has it |
| ViewModel.AddedKeepsIdsUnique | app/src/main/java/com/larsaars/foldersync/FolderSyncViewModel.kt:41-45 | the new pair's id is above every existing id, ids stay distinct, existing pairs keep their order, and the new pair has no folders |
| ViewModel.WithSourceSetsOne | app/src/main/java/com/larsaars/foldersync/FolderSyncViewModel.kt:47-56 | only the first pair with the id changes: its source folder is set and its destination is kept; an unknown id changes nothing; ids are unchanged |
| ViewModel.WithDestSetsOne | app/src/main/java/com/larsaars/foldersync/FolderSyncViewModel.kt:58-67 | the same for the destination folder |
| ViewModel.RemovedKeepsOthers | app/src/main/java/com/larsaars/foldersync/FolderSyncViewModel.kt:69-72 | removal keeps exactly the pairs with another id |
| ViewModel.RemovedAppend | app/src/main/java/com/larsaars/foldersync/FolderSyncViewModel.kt:69-72 | filtering a concatenation filters each part |
| ViewModel.RemovedSingle | app/src/main/java/com/larsaars/foldersync/FolderSyncViewModel.kt:69-72 | a single pair is dropped exactly when it has the id |
| ViewModel.RemovedKeepsIdsUnique | app/src/main/java/com/larsaars/foldersync/FolderSyncViewModel.kt:69-72 | removal keeps ids distinct |
| ViewModel.TotalsAppend | app/src/main/java/com/larsaars/foldersync/FolderSyncViewModel.kt:115-138 | the totals of a concatenation are the sums of the parts' totals |
| ViewModel.TotalsSkipUnconfigured | app/src/main/java/com/larsaars/foldersync/FolderSyncViewModel.kt:122-133 | pairs missing a folder add nothing to the totals |
| ViewModel.FolderSyncViewModel.constructor | app/src/main/java/com/larsaars/foldersync/FolderSyncViewModel.kt:32-39 | the saved pairs become the list, with a blank status and no sync running |
| ViewModel.FolderSyncViewModel.SavePairs | app/src/main/java/com/larsaars/foldersync/FolderSyncViewModel.kt:74-79 | the repository receives the current list |
| ViewModel.FolderSyncViewModel.AddNewPair | app/src/main/java/com/larsaars/foldersync/FolderSyncViewModel.kt:41-45 | appends the new pair and saves |
| ViewModel.FolderSyncViewModel.UpdateSourceFolder | app/src/main/java/com/larsaars/foldersync/FolderSyncViewModel.kt:47-56 | sets the source folder as `WithSource` says, and saves only when the id was found |
| ViewModel.FolderSyncViewModel.UpdateDestFolder | app/src/main/java/com/larsaars/foldersync/FolderSyncViewModel.kt:58-67 | sets the destination folder as `WithDest` says, and saves only when the id was found |
| ViewModel.FolderSyncViewModel.RemovePair | app/src/main/java/com/larsaars/foldersync/FolderSyncViewModel.kt:69-72 | filters out the id as `Removed` says, and always saves |
| ViewModel.FolderSyncViewModel.SyncPair | app/src/main/java/com/larsaars/foldersync/FolderSyncViewModel.kt:80-113 | an unknown id changes nothing; a pair missing a folder asks for both; otherwise the status reports the counters, or the first error on failure, and the busy flag ends cleared |
| ViewModel.FolderSyncViewModel.SyncAll | app/src/main/java/com/larsaars/foldersync/FolderSyncViewModel.kt:115-138 | the status reports `TotalsOf` the pairs, the list is unchanged, and the busy flag ends cleared |

## Left out

- Byte streams: a copy is modelled as the new file taking the source's bytes at once. The 8 KiB
  buffer is not modelled, and neither is an output stream that fails to open or to write.
- Name clashes on creation: a real provider renames a new document whose name is taken (for
  example "a (1).txt"). The model appends a second child with the same name.
- Directory timestamps do not change when a child is created or deleted.
- `delete()` is taken to always succeed. Its boolean result is ignored by the source.
- Exception messages: error strings keep the source's fixed text and the document name, but not
  the `: ${e.message}` suffix.
- The catch-all "Sync failed" result of `syncFolders`: no modelled operation throws past the inner
  handlers, so that path cannot be reached in the model.
- Logging (`Log.d`, `Log.e`): it has no effect on state.
- The `syncedFiles` set: it is cleared at the start of each sync and never used otherwise.
- Syncing a folder with itself, or with a folder inside it: the two trees are separate values in
  the model, so the trees cannot alias.
- Kotlin `Int` overflow: pair ids and counters are unbounded integers in the model.
- Kotlin `Long` timestamps: `lastModified()` values and their difference `abs(a - b)` are
  unbounded integers, so the wrap-around of a subtraction of extreme timestamps is not modelled.
- An input stream that throws while its bytes are copied: the model's copy either takes all
  the source's bytes or, when the stream does not open, none. In the code a throwing stream makes
  `copyFileToPath` return false (FolderSyncEngine.kt:172-212), and makes `syncFile` return `ERROR`
  after the empty destination file was already created (FolderSyncEngine.kt:345-356).
- The engine as the view model sees it: a pure function of a pair's two folder URIs
  (`ViewModel.SyncEngine`). In the code the engine acts on the storage provider, so in `syncAll`
  over pairs that share a folder, or in a repeated `syncPair`, a later sync sees the earlier
  syncs' changes (FolderSyncViewModel.kt:80-138). The model's engine answers each call from the
  URIs alone.
- Coroutines: `syncPair` and `syncAll` run the engine in a launched coroutine. The model runs
  it to completion in sequence, so the intermediate "Syncing..." state and interleavings with
  other actions are not captured.
- The engine's exception path in `syncPair` ("Error: …"): the engine never throws in the model.
- Persistence: the repository (DataStore, JSON) is represented only by the list last handed to it
  (`saved`). Loading at start-up is the constructor's parameter. Converting URIs to and from strings
  is the identity.
- The status line's text formatting: each message is a constructor of `ViewModel.Status`
  carrying the numbers or the first error.
- MainActivity.kt, FolderSyncScreen.kt and the folder picker are not part of this model.

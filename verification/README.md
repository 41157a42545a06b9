# A model of the felbicOS desktop core

The project models, and proves properties of, the parts of the desktop that keep state and are hard to get right:

- **Virtual file system** (`Text`, `Paths`, `CopyNames`, `Trees`, `VfsSpec`, `VfsLaws`, `OperationLaws`,
  `OutcomeLaws`, `Vfs`). `Vfs` is the imperative form: `Node` objects with a child map and an insertion-ordered key
  list, changed in place by `FileSystem`. Each method is proved equal to a function of `VfsSpec` on the tree the nodes
  form; `Valid` keeps that the nodes are a tree, without sharing and cycles. Trees carry object identities as labels,
  so the laws also speak of objects. What a path shows (`StatOf`) is stated for every list of names.
- **Shell commands and trash** (`ShellSpec`, `Terminal`, `ShellLaws`, `TypedPaths`, `SpelledPaths`, `FilesSpec`,
  `Files`, `FilesLaws`, `Failures`): cd, cp, mv, trash, put back, empty trash and the recursive listing as
  compositions of file system calls.
- **Request protocol** (`AisdState`, `AisdClient`, `AisdLaws`, `AisdSystem`, `Framing`): the WebSocket client's handlers
  and timers, its composition with FIFO channels and the server loop, and the length-prefixed frames of the Unix socket.
- **Daemon concurrency** (`ChatState`, `Inference`, `ChatLaws`, `Watcher`, `Indexer`): chat histories whose lock is
  released in the middle, the bounded tool loop, the debounced watcher, and the index rebuild.
- **Window geometry** (`WindowState`, `WindowManager`, `WindowLaws`) and **month grid** (`Dates`, `Calendar`; dates as in
  section 21.4.1 of ECMA-262).

Classes take the form of the source's objects and loops; functions over values specify them; laws are proved about the
functions. Where the code does not meet what it is for, the exact condition is proved: a move into its own subtree
(`MoveConserves`), names equal up to case (`MoveReaches`, `CopyReaches`, `DeleteLaw`), writing over a folder
(`WriteOverFolder`), a source's name already borne by another entry of the target folder (`CpLaw`, `MvBetweenFolders`;
for cp within one folder, where the source itself bears it, `CpWithinFolder`), a target that is or holds the source
(`OverwritingTheSource`), a source in the target folder whose strings do not show it (`MvSpelledLaw`), an item put
back beside one equal up to case (`ReturnedShowsTheSame`), keys in the trash that no path can spell (`EmptyTrashLaw`),
misplaced tool tags (`ToolTextLaw`), colliding index keys (`RebuildCounts`), a short first read (`ClientsReceive`), a
window above the workspace (`ResizeLaw`), and years 0 to 99 (`GridLaw`). `Failures` gives small trees on which the
file operations and shell commands fail, `ReversedTagsPanic`, `ShortFirstRead` and `BackslashCollision` such inputs
for the daemon. The pruned name `.local/share/Trash` of aisd/src/fs/indexer.rs:135 never matches, since a file name
holds no slash; the model keeps it.

## Model

| member | source | states |
|---|---|---|
| `Paths.NormalizeParts` | desktop-shell/js/modules/vfs.js:236-244 | the loop over the split path yields exactly the segment stack that `Paths.Parts` denotes |
| `Paths.PartsAreGood` | desktop-shell/js/modules/vfs.js:236-244 | normalised segments are never empty, `.` or `..` and hold no slash, for every path string |
| `Paths.PartsOfAbsPath` | desktop-shell/js/modules/vfs.js:270-273 | a returned path normalises to exactly the keys it was joined from |
| `Paths.PartsOfChildPath` | desktop-shell/js/modules/terminal.js:494 | appending `/name` to any path, the root included, appends one segment |
| `Paths.GoodUpToCase` | desktop-shell/js/modules/vfs.js:256 | a key that equals a path segment up to case is itself spellable as a segment |
| `Paths.PartsStep` | desktop-shell/js/modules/vfs.js:236-244 | after any path string: a slash or `/.` changes nothing, `/..` goes up one level and stays at the root, and any other name goes down one level |
| `Paths.UpOne` | desktop-shell/js/modules/vfs.js:239-241 | `/..` drops the last name, if there is one |
| `Paths.PartsAreTheMeaning` | desktop-shell/js/modules/vfs.js:236-244 | the segments are the only reading of path strings that goes slash by slash like this |
| `CopyNames.CandidatesDiffer` | desktop-shell/js/modules/vfs.js:425-437 | different counters of the `_copyN` loop give different candidate names, with or without an extension |
| `CopyNames.FreshCountIsLeast` | desktop-shell/js/modules/vfs.js:425-437 | the loop stops after at most as many tries as there are keys plus one, at the least counter whose candidate is free (pigeonhole) |
| `CopyNames.FreshNameIsFree` | desktop-shell/js/modules/vfs.js:425-437 | the chosen name is never a key already there, so no entry is overwritten; a free name is kept as it is |
| `CopyNames.FreshNameIsGood` | desktop-shell/js/modules/vfs.js:425-437 | the chosen name can be spelled by a path segment if the original could |
| `CopyNames.FallbackNames` | desktop-shell/js/modules/vfs.js:425-437 | the n-th name tried: `_copyN` stands before the last dot of a file's name, and at the end of a folder's name or of a file's without a dot |
| `CopyNames.PickName` | desktop-shell/js/modules/vfs.js:468-480 | the renaming loop terminates and returns exactly the fresh name |
| `Vfs.Clone` | desktop-shell/js/modules/vfs.js:208-228 | the recursive clone is a fresh tree of nodes with the kinds, key order and contents of the source, sharing no node with anything that existed, and drops the trash mark |
| `Vfs.FindKey` | desktop-shell/js/modules/vfs.js:254-260 | the first key that equals the name up to case, or none |
| `Vfs.FileSystem.constructor` | desktop-shell/js/modules/vfs.js:3-7 | an empty root folder, valid: the nodes form exactly the tree |
| `Vfs.FileSystem.ResolvePath` | desktop-shell/js/modules/vfs.js:231-274 | returns exactly the node and canonical path that the specification finds, or nothing, and changes nothing |
| `Vfs.FileSystem.GetParentAndName` | desktop-shell/js/modules/vfs.js:276-300 | returns the node, path and last segment that belong to the parent of the normalised path |
| `Vfs.FileSystem.Mkdir` | desktop-shell/js/modules/vfs.js:308-331 | on the heap of nodes: adds one empty folder under a name free up to case, or fails and changes nothing |
| `Vfs.FileSystem.CreateFile` | desktop-shell/js/modules/vfs.js:333-356 | on the heap of nodes: adds one file under a name free up to case, or fails and changes nothing |
| `Vfs.FileSystem.FindEntry` | desktop-shell/js/modules/vfs.js:358-370 | the parent and the exact key of the first entry that matches up to case |
| `Vfs.FileSystem.DeletePath` | desktop-shell/js/modules/vfs.js:358-379 | on the heap of nodes: unhooks exactly the first entry that matches up to case, or fails and changes nothing |
| `Vfs.FileSystem.RenamePath` | desktop-shell/js/modules/vfs.js:381-414 | on the heap of nodes: the same node under its new key at the end of its folder, or failure and no change when the new name is taken up to case |
| `Vfs.FileSystem.CopyPath` | desktop-shell/js/modules/vfs.js:416-444 | on the heap of nodes: files a fresh, unshared copy of the source under the fresh name; nothing else changes |
| `Vfs.FileSystem.MovePath` | desktop-shell/js/modules/vfs.js:446-491 | on the heap of nodes: the same nodes under the fresh name in the destination, or cut off from the root when the destination lies inside them |
| `Vfs.FileSystem.ListDirectory` | desktop-shell/js/modules/vfs.js:493-497 | the children in key order, nothing for a file or a missing path |
| `Vfs.FileSystem.ReadFile` | desktop-shell/js/modules/vfs.js:499-503 | the content of the file, nothing for a folder or a missing path |
| `Vfs.FileSystem.WriteFile` | desktop-shell/js/modules/vfs.js:505-530 | on the heap of nodes: overwrites a file in place, and otherwise files a new file under the last segment in the parent, replacing what is filed there |
| `Vfs.FileSystem.Exists` | desktop-shell/js/modules/vfs.js:537-539 | whether the path resolves |
| `Vfs.FileSystem.IsFolder` | desktop-shell/js/modules/vfs.js:541-544 | whether the path resolves to a folder |
| `VfsLaws.ResolutionIsCanonical` | desktop-shell/js/modules/vfs.js:231-274 | resolving the returned path gives the same node and the same path, even among keys equal up to case |
| `VfsLaws.UpLeadsToParent` | desktop-shell/js/modules/vfs.js:231-274 | `/..` after a path leads to the folder that what the path leads to is in, from the root to the root |
| `VfsSpec.ResolveEntry` | desktop-shell/js/modules/vfs.js:276-300 | looking the last segment up in the parent that `getParentAndName` finds agrees with `resolvePath` on every path |
| `VfsLaws.StatGraft` | desktop-shell/js/modules/vfs.js:246-268 | what every list of names shows after a subtree is replaced: unchanged outside it, the new subtree below it |
| `VfsLaws.StatInsert` | desktop-shell/js/modules/vfs.js:308-356 | inserting under a new key hides nothing; the names that come to lead somewhere are exactly those of the new entry |
| `VfsLaws.StatRemove` | desktop-shell/js/modules/vfs.js:358-379 | removing an entry leaves every name that led elsewhere; with unique names those that led into it lead nowhere |
| `OutcomeLaws.CreationSucceeds` | desktop-shell/js/modules/vfs.js:308-356 | creating succeeds if and only if the parent path leads to a folder in which no entry bears the name up to case, and else changes nothing |
| `OutcomeLaws.DeletionSucceeds` | desktop-shell/js/modules/vfs.js:358-379 | deleting succeeds if and only if the path leads to an entry other than the root, and else changes nothing |
| `OutcomeLaws.RenamingSucceeds` | desktop-shell/js/modules/vfs.js:381-414 | renaming succeeds if and only if besides no entry of the folder, the renamed one included, bears the new name up to case |
| `OutcomeLaws.TransportSucceeds` | desktop-shell/js/modules/vfs.js:416-456 | copying succeeds if and only if the source path leads somewhere and the other to a folder; moving, if besides the source is not the root |
| `OutcomeLaws.WritingSucceeds` | desktop-shell/js/modules/vfs.js:505-530 | writing succeeds if and only if the path leads to a file, or is not the root and its parent is a folder |
| `OutcomeLaws.CreatedHolds` | desktop-shell/js/modules/vfs.js:308-356 | a new folder lists nothing and a new file reads its content, under every name that a path can spell |
| `OutcomeLaws.CopyForgets` | desktop-shell/js/modules/vfs.js:208-228 | no node of a copy remembers a folder it was trashed from |
| `OperationLaws.CreateLaw` | desktop-shell/js/modules/vfs.js:308-356 | creation keeps sibling names unique up to case, adds just the new contents, and every other path reads as before |
| `OperationLaws.CreatedIsReachable` | desktop-shell/js/modules/vfs.js:308-356 | the created entry resolves by its own name if and only if that name can be a path segment |
| `OperationLaws.DeleteLaw` | desktop-shell/js/modules/vfs.js:358-379 | a deleted path no longer exists if and only if no sibling had the name up to case; then nothing but its subtree is affected, and contents are accounted for |
| `OperationLaws.RenameReaches` | desktop-shell/js/modules/vfs.js:381-414 | a renamed subtree is found, object for object, at every corresponding new path; contents and objects are conserved |
| `OperationLaws.RenameLaw` | desktop-shell/js/modules/vfs.js:381-414 | renaming keeps names unique, and if no sibling equals the entry up to case every path not through the old or new name reads as before |
| `OperationLaws.MoveConserves` | desktop-shell/js/modules/vfs.js:446-491 | a move keeps the multiset of contents if and only if the destination is outside the subtree or the subtree holds no file, and keeps all objects in an unshared tree if and only if it is outside |
| `OperationLaws.MoveReaches` | desktop-shell/js/modules/vfs.js:468-491 | the destination path plus the chosen name leads to the moved entry if and only if no key left there equals it up to case |
| `OperationLaws.MoveKeepsObjects` | desktop-shell/js/modules/vfs.js:446-491 | then every path below the new place resolves to the object the matching old path resolved to |
| `OperationLaws.MoveLaw` | desktop-shell/js/modules/vfs.js:446-491 | names stay unique if and only if the chosen name equals none up to case; then, if no sibling equalled the entry, every path outside the old and new place reads as before |
| `OperationLaws.CopyLaw` | desktop-shell/js/modules/vfs.js:416-444 | exactly one subtree is added, under a free key, equal to the source in kinds, keys and contents and sharing no object; every path that led somewhere leads there still |
| `OperationLaws.CopyShows` | desktop-shell/js/modules/vfs.js:208-228 | a copy shows, at every list of names, what its source shows |
| `OperationLaws.CopyReaches` | desktop-shell/js/modules/vfs.js:416-444 | the copy resolves by its name if and only if the source was not the root and no key there equals the chosen name up to case |
| `OperationLaws.CopyIsIndependent` | desktop-shell/js/modules/vfs.js:208-228 | no deletion, renaming or writing by a path that leads into the copy changes what was there before and does not hold the copy, nor the other way round; for a copy made inside its own source, this speaks of every part of the source that does not hold the copy |
| `OperationLaws.CreateKeepsGood` | desktop-shell/js/modules/vfs.js:308-356 | creation keeps every key spellable as a path segment if and only if the new name is |
| `OperationLaws.DeleteKeepsGood` | desktop-shell/js/modules/vfs.js:358-379 | deletion keeps every key spellable |
| `OperationLaws.RenameKeepsGood` | desktop-shell/js/modules/vfs.js:381-414 | renaming keeps every key spellable if and only if the new name is |
| `OperationLaws.MoveKeepsGood` | desktop-shell/js/modules/vfs.js:446-491 | a move keeps every key spellable, whatever name it chooses |
| `OperationLaws.CopyKeepsGood` | desktop-shell/js/modules/vfs.js:416-444 | a copy keeps every key spellable if and only if its source is not the root |
| `OperationLaws.WriteKeepsGood` | desktop-shell/js/modules/vfs.js:505-530 | writing keeps every key spellable |
| `OperationLaws.WriteLaw` | desktop-shell/js/modules/vfs.js:505-530 | reading after writing a path that leads to no folder gives the new content, names stay unique, and every path that leads to another node reads as before |
| `OperationLaws.WriteOverFolder` | desktop-shell/js/modules/vfs.js:516-524 | writing a path that leads to a folder: exactly when its key is spelled exactly does the file replace the folder, read back and keep names unique |
| `Failures.MovedIntoItself` | desktop-shell/js/modules/vfs.js:446-491 | a folder moved into itself: the move succeeds and a content is lost |
| `Failures.MovedButHidden` | desktop-shell/js/modules/vfs.js:468-491 | moved beside a key equal to its name up to case: the new path leads elsewhere |
| `Failures.CopiedButHidden` | desktop-shell/js/modules/vfs.js:416-444 | copied beside such a key: the new path leads elsewhere |
| `Failures.DeletedButFound` | desktop-shell/js/modules/vfs.js:358-379 | deleted beside such a key: the path still leads somewhere |
| `Failures.WrittenButNotRead` | desktop-shell/js/modules/vfs.js:516-524 | written over a folder by another spelling: the content is not read back |
| `Terminal.Shell.Cd` | desktop-shell/js/modules/terminal.js:305-326 | the current path becomes the canonical path of the folder, or stays |
| `Terminal.Shell.HandleCp` | desktop-shell/js/modules/terminal.js:412-459 | the sequence of deletion, copy and rename is the specification `Cp` of the old tree, with a copy of the source as it is once the target is deleted; whenever the copy is made, its nodes are new and unshared |
| `Terminal.Shell.HandleMv` | desktop-shell/js/modules/terminal.js:461-516 | the sequence of deletion, rename or move, and rename is the specification `Mv` of the old tree, on the same nodes |
| `TypedPaths.OperandMeans` | desktop-shell/js/modules/terminal.js:541-544 | an absolute operand means itself, an empty one the current folder, and any other goes on where the path of the current folder ends |
| `TypedPaths.TypedNames` | desktop-shell/js/modules/terminal.js:541-544 | names typed one below the other lead down from the current folder |
| `TypedPaths.TypedUpAndDown` | desktop-shell/js/modules/terminal.js:541-544 | `..` typed n times, then names: up n levels, no further than the root, and down from there |
| `TypedPaths.CdUp` | desktop-shell/js/modules/terminal.js:305-326 | `cd ..` leads from a folder to the one it is in, and stays at the root |
| `TypedPaths.CpTyped` | desktop-shell/js/modules/terminal.js:412-459 | cp with operands typed in any current folder: if the landing goes right, the target looked up from there shows what the source showed and still shows |
| `TypedPaths.MvTyped` | desktop-shell/js/modules/terminal.js:461-516 | mv likewise: the target shows the moved subtree, object for object, the source path leads nowhere if and only if no sibling equalled it up to case, and no content is lost |
| `SpelledPaths.CpSpelled` | desktop-shell/js/modules/terminal.js:412-459 | cp with operands spelled in any way that ends in a name does what it does with the normalised ones |
| `SpelledPaths.MvSpelled` | desktop-shell/js/modules/terminal.js:461-516 | so does mv, if comparing the strings of the two folders gives what comparing the normalised ones gives |
| `SpelledPaths.MvSpelledApart` | desktop-shell/js/modules/terminal.js:496-514 | in one folder whose two strings differ (`mv ./a b`), mv moves the source onto itself: it ends up under its fallback name, whatever name is wanted |
| `SpelledPaths.MvSpelledLaw` | desktop-shell/js/modules/terminal.js:496-514 | so mv does what it does with normalised operands if and only if the source comes from another folder, or the strings show that it does not, or the fallback name is the wanted one |
| `ShellLaws.LowerAbsPath` | desktop-shell/js/modules/terminal.js:496 | the two parent path strings fold alike exactly when their segments do, one by one |
| `ShellLaws.SameFolder` | desktop-shell/js/modules/terminal.js:496 | the string comparison of parents holds if and only if the source lies in the destination folder already |
| `ShellLaws.LandingLaw` | desktop-shell/js/modules/terminal.js:454-457 | after landing, the concluding rename hits the landed entry if and only if no other entry bore the source's name or the fallback name is the wanted one |
| `ShellLaws.OverwritingTheSource` | desktop-shell/js/modules/terminal.js:443-452 | when the target is the source or holds it, cp and mv delete the source and then fail |
| `ShellLaws.CpLaw` | desktop-shell/js/modules/terminal.js:412-459 | if at most one entry of the destination folder bears the wanted name up to case: cp leaves exactly the cleared tree plus the copy under the wanted name, if and only if the landing goes right |
| `ShellLaws.CpWithinFolder` | desktop-shell/js/modules/terminal.js:443-458 | cp within one folder: the landing goes right if and only if the fallback name is the wanted one; otherwise the original gets the wanted name and the copy keeps the fallback name |
| `ShellLaws.CpWithinFolderMoves` | desktop-shell/js/modules/terminal.js:443-458 | in that case the target path shows the original, object for object, and the source path leads nowhere |
| `ShellLaws.CpShowsSource` | desktop-shell/js/modules/terminal.js:412-459 | then the target shows, at every path below it, what the source showed and still shows |
| `ShellLaws.CpDelivers` | desktop-shell/js/modules/terminal.js:412-459 | then every path of the tree without the old target reads as before, and the source is where it was |
| `ShellLaws.MvWithinFolder` | desktop-shell/js/modules/terminal.js:496-500 | mv within one folder is a rename of the source to the wanted name, the old target aside, with no condition on other names |
| `ShellLaws.MvBetweenFolders` | desktop-shell/js/modules/terminal.js:501-514 | mv between folders leaves exactly the subtree at its new place if and only if the landing goes right |
| `ShellLaws.MvIntoItself` | desktop-shell/js/modules/terminal.js:501-514 | mv of a folder into its own subtree loses the folder and all it holds |
| `ShellLaws.MvDelivers` | desktop-shell/js/modules/terminal.js:461-516 | after a successful mv the target shows the moved subtree, object for object; the source path leads nowhere if and only if no sibling equalled the source up to case, and then every path outside the old and the new place reads as before; no content or object of the rest is lost |
| `Failures.CopiedButGone` | desktop-shell/js/modules/terminal.js:443-458 | `cp /a /b` with a file a: afterwards the original is at b and a leads nowhere |
| `Failures.OverwrittenAndLost` | desktop-shell/js/modules/terminal.js:443-452 | `cp /a /A` and `mv /a /A` with a file a: the file is gone |
| `Failures.MovedToFallback` | desktop-shell/js/modules/terminal.js:496-514 | `mv /./a /b` with a file a: it ends up under a longer name than either |
| `Failures.MovedToWrongName` | desktop-shell/js/modules/terminal.js:501-514 | `mv /a /d/b` with a file A in d: what arrives does not become b |
| `Files.FileManager.MoveToTrash` | desktop-shell/js/modules/files.js:1591-1607 | creates the trash if needed, marks the node with its folder and moves it: the specification's tree |
| `Files.FileManager.PutBackFromTrash` | desktop-shell/js/modules/files.js:1617-1627 | moves the item to the recorded folder, or to /workspace without a record |
| `Files.FileManager.EmptyTrash` | desktop-shell/js/modules/files.js:1654-1661 | deletes by path once per listed item |
| `Files.FileManager.GetRecursiveNodes` | desktop-shell/js/modules/files.js:176-190 | the recursive collector returns the pre-order walk of the folder, by first matches up to case, if every key below can be spelled by a path segment |
| `FilesLaws.TrashRoundTrip` | desktop-shell/js/modules/files.js:1591-1627 | for an item that is the first match of its own name, with no match in the trash: trash then put back succeeds and restores the tree, the mark, the position among siblings and a created trash aside |
| `FilesLaws.ReturnedShowsTheSame` | desktop-shell/js/modules/files.js:1617-1627 | the restored tree leads every path to the same object and content as before if and only if no sibling equals the item up to case; contents are the same in any case |
| `FilesLaws.TrashIsThere` | desktop-shell/js/modules/files.js:1594-1597 | the trash that was there is kept, and else a new empty folder is there |
| `FilesLaws.PutBackLaw` | desktop-shell/js/modules/files.js:1617-1627 | an item found by its name goes to the folder it remembers, or to /workspace if it remembers none, under the first name tried that is free, if and only if that is a folder |
| `FilesLaws.DeleteAllEmpties` | desktop-shell/js/modules/files.js:1658-1661 | deleting the listed names empties the folder although each deletion takes the first match up to case: counts per case class reach zero |
| `FilesLaws.EmptyTrashLaw` | desktop-shell/js/modules/files.js:1654-1661 | afterwards /Trash is empty, keys equal up to case included, and nothing else has changed, if and only if every key in it can be spelled by a path segment (a copy of the root, named `/`, cannot) |
| `FilesLaws.SlashLeadsBack` | desktop-shell/js/modules/files.js:176-190 | below an entry `/` the collector lists the same folder again, so without spellable keys it need not end |
| `FilesLaws.DescendantsComplete` | desktop-shell/js/modules/files.js:176-190 | the walk visits every proper descendant and nothing else |
| `FilesLaws.DescendantsDistinct` | desktop-shell/js/modules/files.js:176-190 | the walk visits no descendant twice |
| `FilesLaws.ListingLaw` | desktop-shell/js/modules/files.js:176-190 | with unique, spellable names in the listed folder: each proper descendant once, and each item's folder path plus name leads back to that item's node |
| `AisdClient.Client.constructor` | desktop-shell/js/modules/aisd-client.js:16-24 | the state after construction, connecting or with a reconnect armed |
| `AisdClient.Client.Connect` | desktop-shell/js/modules/aisd-client.js:28-38 | no second socket while one is connecting or open; a failed construction arms the reconnect timer |
| `AisdClient.Client.OnOpen` | desktop-shell/js/modules/aisd-client.js:40-49 | the whole new state: connected, no reconnect timer |
| `AisdClient.Client.OnMessage` | desktop-shell/js/modules/aisd-client.js:51-75 | the whole new state: an event settles nothing, a response settles the promise of its id and disarms its timer |
| `AisdClient.Client.OnClose` | desktop-shell/js/modules/aisd-client.js:77-88 | the whole new state: every pending promise rejected, every request timer cleared, reconnect armed |
| `AisdClient.Client.ScheduleReconnect` | desktop-shell/js/modules/aisd-client.js:95-102 | at most one reconnect timer |
| `AisdClient.Client.OnTimer` | desktop-shell/js/modules/aisd-client.js:97-100 | the whole new state when a reconnect or request timer fires |
| `AisdClient.Client.Call` | desktop-shell/js/modules/aisd-client.js:112-129 | the whole new state: rejected at once when not connected, otherwise pending under a new id with a 30 s timer |
| `AisdLaws.RunsKeepInv` | desktop-shell/js/modules/aisd-client.js:28-129 | over every run: pending entries and request timers in bijection, ids distinct and below the counter, each promise pending or settled exactly once, a live socket or a reconnect timer and never both |
| `AisdLaws.DeadlinesKept` | desktop-shell/js/modules/aisd-client.js:120-123 | once due timers have run, no call has been pending for 30 s |
| `AisdLaws.SettledForGood` | desktop-shell/js/modules/aisd-client.js:62-75 | along a run settlements are only added, never twice for one promise |
| `AisdLaws.StepSettles` | desktop-shell/js/modules/aisd-client.js:51-129 | every step adds to the log of settlements exactly what its event settles: a call without connection, a response (resolved with its result if and only if it reports success), a timer of a call 30 s old, a close all that are pending, and nothing else any |
| `AisdLaws.CallIsPending` | desktop-shell/js/modules/aisd-client.js:112-129 | a call with a connection is pending under an id not used before |
| `AisdLaws.ConnectsAgain` | desktop-shell/js/modules/aisd-client.js:28-49 | a reconnect timer makes a new connecting socket, or if that fails a new reconnect timer; a connecting socket can open |
| `AisdLaws.StepArms` | desktop-shell/js/modules/aisd-client.js:95-126 | request timers are armed for 30 s and reconnect timers for 3 s |
| `AisdLaws.CloseInv` | desktop-shell/js/modules/aisd-client.js:77-88 | a close leaves nothing pending and keeps the invariant |
| `AisdLaws.CloseRejects` | desktop-shell/js/modules/aisd-client.js:82-85 | a close rejects each pending promise as disconnected |
| `AisdSystem.SystemRunsKeepInv` | aisd/src/ipc/mod.rs:119-160 | client, FIFO channels and sequential server together, over every run with stats pushes and reconnects anywhere: every queue holds only authentic requests and answers, in ascending order of ids, none served twice |
| `AisdSystem.ResolvedByOwnAnswer` | aisd/src/ipc/mod.rs:119-160 | a resolved call carries exactly the dispatch result of its own method and parameters, dispatched once |
| `AisdSystem.DeliveredSettles` | desktop-shell/js/modules/aisd-client.js:56-72 | over every run: a push settles nothing; any other message is the response to a served request of this connection, and if that is pending it settles its own call, resolved with the server's result or rejected with its error text |
| `AisdSystem.PendingIsUnderway` | aisd/src/ipc/mod.rs:119-160 | over every run: while the socket is open, each pending request waits for the server or its response for the client, so something can go on |
| `Inference.InferenceState.BeginChat` | aisd/src/inference/mod.rs:470-493 | the first critical section stores the trimmed history and renders the prompt from it, other sessions untouched |
| `Inference.InferenceState.EndChat` | aisd/src/inference/mod.rs:526-532 | the second critical section appends user and assistant turn to whatever the history has become |
| `Inference.InferenceState.ClearSession` | aisd/src/inference/mod.rs:539-543 | only this session's history goes |
| `Inference.OneTurn` | aisd/src/inference/mod.rs:499-517 | parse, run the tool, ask again: the verdict of the specification |
| `Inference.RunTools` | aisd/src/inference/mod.rs:495-524 | the bounded loop computes the specification's conversation |
| `Inference.Converse` | aisd/src/inference/mod.rs:495-524 | for every model and tool behaviour: one to four completions, and an answer never holds an opening tool tag |
| `ChatLaws.ConverseLaw` | aisd/src/inference/mod.rs:495-524 | a chat has an outcome if and only if a transcript leads to it: the first response to the prompt, each other to the prompt, the response before it and the answer of the tool it called; ending with the last one cleaned (the fourth, or one that calls no tool), with an error (no completion) or with a panic (crossed tags) |
| `ChatLaws.CleanLaw` | aisd/src/inference/mod.rs:519-524 | what is stored is the text before the first opening tag, without the white space around it |
| `Inference.CleanHoldsNoTag` | aisd/src/inference/mod.rs:519-524 | what is stored never holds an opening tool tag |
| `Inference.ToolTextLaw` | aisd/src/inference/mod.rs:254-259 | parsing panics if and only if both tags occur and the first closing one starts before the end of the first opening one; a parsed text holds no closing tag |
| `Inference.ReversedTagsPanic` | aisd/src/inference/mod.rs:254-259 | a response with the closing tag before the opening one makes the parser panic |
| `Inference.FindTag` | aisd/src/inference/mod.rs:255-256 | the first occurrence, or none anywhere |
| `Inference.NoToolCallEndsLoop` | aisd/src/inference/mod.rs:499-517 | a response without a tag is the answer, however many rounds are left |
| `ChatState.RunsKeepInv` | aisd/src/inference/mod.rs:470-543 | over all interleavings with at most K chats in flight per session: |history| + 2 inflight <= 20 + 2K; the history is the turns of the latest exchanges completed since the clear, of all of them or of at least ten |
| `ChatState.PromptUsesRecentExchanges` | aisd/src/inference/mod.rs:480-490 | a chat that begins reads exactly the turns of the last ten exchanges completed since the clear, or of all of them |
| `ChatLaws.PromptShowsRecentExchanges` | aisd/src/inference/mod.rs:485-490 | the prompt shows these exchanges word for word and in order |
| `Watcher.WatcherTask.Run` | aisd/src/fs/watcher.rs:71-98 | the debounce loop on any sequence of wakes: flag, counts and the table that the last rebuild left |
| `Watcher.LoopLaw` | aisd/src/fs/watcher.rs:71-98 | for any wakes: one rebuild for every time that 500 ms have gone by since a message while the channel is open, and the table of the tree at the last of these, or the old one |
| `Watcher.TableIsOfLastRebuild` | aisd/src/fs/watcher.rs:71-98 | over every run of the whole in which the store does not fail, the table is the index of what the last rebuild read, or the first table |
| `Watcher.RunsKeepInv` | aisd/src/fs/watcher.rs:34-98 | over all interleavings of kernel, thread, channel and loop: at most 16 queued messages, rebuilds plus the flag at most messages received, and these plus all under way at most changes reported |
| `Watcher.QuietIsFresh` | aisd/src/fs/watcher.rs:71-98 | idle, empty and unblocked: the last rebuild started after the last event delivered; if it ran to its end after the last change, the table is that of the present tree |
| `Watcher.NeverStuck` | aisd/src/fs/watcher.rs:54-98 | some internal step is possible if and only if something is under way: a full channel blocks the thread, never the whole |
| `Watcher.SettlesFresh` | aisd/src/fs/watcher.rs:54-98 | once changes stop, every continuation ends within a computed number of steps in a quiet state rebuilt after the last reported change |
| `Indexer.Index.IndexDirectory` | aisd/src/fs/indexer.rs:93-129 | rows, count and success of the recursive walk, errors below the directory forgotten |
| `Indexer.Index.RebuildIndex` | aisd/src/fs/indexer.rs:17-30 | the table is replaced by that of the walk |
| `Indexer.IndexItemsLaw` | aisd/src/fs/indexer.rs:93-129 | the walk inserts exactly the entries visited, in order, and fails exactly on an unreadable entry of the directory itself |
| `Indexer.WalkMeets` | aisd/src/fs/indexer.rs:93-137 | the walk visits exactly the entries reachable through readable directories that are not pruned |
| `Indexer.WalkDistinct` | aisd/src/fs/indexer.rs:93-129 | no path is visited twice |
| `Indexer.RebuildCounts` | aisd/src/fs/indexer.rs:17-30 | for any tree and any read errors: the count is the number of visits, and equals the number of rows if and only if no two visits share a key |
| `Indexer.RebuildLaw` | aisd/src/fs/indexer.rs:17-30 | without backslashes in names: exactly one row per reachable entry, under the key that splits back into its path, and the count of rows is returned |
| `Indexer.BackslashCollision` | aisd/src/fs/indexer.rs:98-102 | with a backslash in a name two entries can share a row |
| `Framing.LengthRoundTrip` | aisd/src/ipc/mod.rs:202 | the 32-bit big-endian length decodes to itself |
| `Framing.PrefixRoundTrip` | desktop/ipc_client.py:44 | every four bytes are the encoding of the length they decode to |
| `Framing.DeframeLaw` | aisd/src/ipc/mod.rs:173-185 | every byte stream is some acceptable frames and a rest that starts with none |
| `Framing.DeframeFrames` | aisd/src/ipc/mod.rs:173-205 | payloads of 1 byte to 8 MiB are given back in order, whatever follows |
| `Framing.ServeLaw` | aisd/src/ipc/mod.rs:173-205 | on any input: one response per accepted frame, in order, up to the first that is too large; a clean end if and only if all were answered and less than a length was left |
| `Framing.ConversationLaw` | aisd/src/ipc/mod.rs:187-208 | a client that deframes and decodes the answer finds for each request in order, under its id, the result or the error of performing it (or that it could not be read); one for every request if and only if every response fits |
| `Framing.OversizedRequestIsRefused` | aisd/src/ipc/mod.rs:180-182 | a request above the limit ends the connection with an error and no response |
| `Framing.ClientsReceive` | desktop/ipc_client.py:37-62 | both clients get exactly the response; the Python client if and only if its first read returns the whole length |
| `Framing.ShortFirstRead` | desktop/ipc_client.py:37-62 | a response whose length comes in two chunks: the Python client gives up where the other client reads it |
| `Framing.PythonReceivesWhole` | desktop/ipc_client.py:37-62 | whatever arrives, a payload it returns is one whole frame from the start of the stream, never truncated or over-read |
| `Framing.Stream.Read` | desktop/ipc_client.py:49 | one read takes part of one chunk, nothing only at the end |
| `Framing.Stream.ReadExact` | aisd/src/ipc/mod.rs:184-185 | exactly the next n bytes for any chunking, or failure if and only if the stream is shorter |
| `Framing.HandleUnixConnection` | aisd/src/ipc/mod.rs:173-208 | the server loop writes, counts and ends as the specification says, for any chunking |
| `Framing.SendRequest` | desktop/ipc_client.py:30-62 | the chunk loop returns exactly what the specification takes from these chunks; the request goes out as one frame |
| `Framing.Call` | aisd/src/bin/felbicos-ai.rs:102-133 | sends one frame within the limit and returns exactly the next frame or an error, for any chunking |
| `WindowManager.ManagedWindow.SaveWindowState` | desktop-shell/js/modules/window-manager.js:171-186 | saves the effective geometry unless snapped; changes nothing else |
| `WindowManager.ManagedWindow.RestoreWindowState` | desktop-shell/js/modules/window-manager.js:191-200 | takes the saved geometry, if any, and drops the three classes |
| `WindowManager.ManagedWindow.ToggleMaximize` | desktop-shell/js/modules/window-manager.js:217-224 | the whole new state |
| `WindowManager.ManagedWindow.MaximizeWindow` | desktop-shell/js/modules/window-manager.js:226-234 | the whole new state, without saving |
| `WindowManager.ManagedWindow.SnapWindowLeft` | desktop-shell/js/modules/window-manager.js:236-245 | the whole new state |
| `WindowManager.ManagedWindow.SnapWindowRight` | desktop-shell/js/modules/window-manager.js:247-256 | the whole new state |
| `WindowManager.ManagedWindow.OnTitleDown` | desktop-shell/js/modules/window-manager.js:267-319 | the whole new state: a snapped window takes its saved size under the cursor |
| `WindowManager.ManagedWindow.DragMove` | desktop-shell/js/modules/window-manager.js:321-336 | left and top clamped to the workspace; nothing else changes |
| `WindowManager.ManagedWindow.DragUp` | desktop-shell/js/modules/window-manager.js:366-392 | which of snap, maximize and save happens |
| `WindowManager.ManagedWindow.OnHandleDown` | desktop-shell/js/modules/window-manager.js:408-429 | a resize starts from the present rectangle, unless snapped |
| `WindowManager.ManagedWindow.ResizeMove` | desktop-shell/js/modules/window-manager.js:431-480 | the style placed by the branches for width, height and the top of the workspace |
| `WindowManager.ManagedWindow.OnMouseMove` | desktop-shell/js/modules/window-manager.js:321-336 | every listener in turn |
| `WindowManager.ManagedWindow.OnMouseUp` | desktop-shell/js/modules/window-manager.js:366-392 | every listener in turn, then none |
| `WindowManager.ManagedWindow.OnKey` | desktop-shell/js/modules/window-manager.js:500-528 | the whole new state for each arrow |
| `WindowLaws.RunsKeepInv` | desktop-shell/js/modules/window-manager.js:171-256 | over every run of presses, moves, releases, keys and clicks: at most one class and one drag, and the saved geometry is one the window had while it had no class |
| `WindowLaws.CommandsThenRestore` | desktop-shell/js/modules/window-manager.js:500-528 | any keys and maximize clicks from normal, then restore: exactly the starting geometry, and the same style if that was complete |
| `WindowLaws.SnapLaw` | desktop-shell/js/modules/window-manager.js:217-256 | the left key takes the left half of the workspace, the right key the right half, the up key the whole, as far as the least size allows; the button maximizes or restores |
| `WindowLaws.UnsnapKeepsCursor` | desktop-shell/js/modules/window-manager.js:282-303 | dragging a snapped window off keeps the cursor at the same fraction of its width and takes the saved size |
| `WindowLaws.DragStaysInside` | desktop-shell/js/modules/window-manager.js:328-336 | the title bar stays inside the workspace, the size is kept, and the window follows the cursor exactly where the clamp allows |
| `WindowLaws.DragGesture` | desktop-shell/js/modules/window-manager.js:312-336 | all through a drag the window has the size it was gripped with and stands as far from where it was gripped as the cursor, as far as the workspace allows |
| `WindowLaws.DropLaw` | desktop-shell/js/modules/window-manager.js:366-392 | after a drag and drop: snapped left, right or maximized within 20 pixels of that edge; what a restore gives back is the place of the drop, or, for a drop at the top, the place the drag began |
| `WindowLaws.ResizeLaw` | desktop-shell/js/modules/window-manager.js:431-480 | the edges opposite the handle stay if and only if the handle pulls the top or the window does not stick out of the top; a window of least size below the top stays so |
| `WindowLaws.ResizeFollows` | desktop-shell/js/modules/window-manager.js:431-480 | the pulled edges follow the cursor: right and bottom down to the least size, left and top while the least size is kept, none above the workspace |
| `WindowLaws.ResizeGesture` | desktop-shell/js/modules/window-manager.js:408-490 | all through a resize: opposite edges stay, least size holds, only the last move counts, and moving back gives the starting rectangle |
| `Dates.YearStep` | desktop-shell/js/modules/apps/calendar-app.js:71-73 | the day numbers of consecutive years differ by the length of the year |
| `Dates.DayOfInjective` | desktop-shell/js/modules/apps/calendar-app.js:71-73 | different civil dates fall on different days |
| `Dates.DateOf` | desktop-shell/js/modules/apps/calendar-app.js:72 | the civil date of a day: its day number is that day |
| `Dates.MonthStep` | desktop-shell/js/modules/apps/calendar-app.js:71-73 | the first of a month follows the last of the month before, across years too |
| `Dates.Epoch` | desktop-shell/js/modules/apps/calendar-app.js:71 | 1 January 1970 is day 0, a Thursday |
| `Dates.DayZero` | desktop-shell/js/modules/apps/calendar-app.js:72-73 | day 0 of a month is the last day of the month before |
| `Calendar.FormatInjective` | desktop-shell/js/modules/apps/calendar-app.js:45-49 | different dates have different strings |
| `Calendar.FormatReads` | desktop-shell/js/modules/apps/calendar-app.js:45-49 | the parts of a date string read as the year, the month counted from one and the day, in two digits each |
| `Calendar.CalendarApp.RenderMonthGrid` | desktop-shell/js/modules/apps/calendar-app.js:59-109 | the three loops draw exactly the 42 cells of the specification |
| `Calendar.CalendarApp.RenderDays` | desktop-shell/js/modules/apps/calendar-app.js:75-108 | each loop's cells, from the first weekday and the two month lengths |
| `Calendar.CalendarApp.PreviousMonth` | desktop-shell/js/modules/apps/calendar-app.js:243-253 | the month before, drawn |
| `Calendar.CalendarApp.NextMonth` | desktop-shell/js/modules/apps/calendar-app.js:255-265 | the month after, drawn |
| `Calendar.CalendarApp.JumpToday` | desktop-shell/js/modules/apps/calendar-app.js:267-273 | the month of today, drawn |
| `Calendar.GridLaw` | desktop-shell/js/modules/apps/calendar-app.js:71-108 | the grid is 42 consecutive civil dates from a Sunday if and only if the year is not one of 0 to 99 |
| `Calendar.EachDayOnce` | desktop-shell/js/modules/apps/calendar-app.js:71-108 | each day of the shown month stands in exactly one cell, and only those are shown as its own |
| `Calendar.CellShows` | desktop-shell/js/modules/apps/calendar-app.js:75-108 | the k-th cell shows the day and date string of the k-th day from the Sunday on or before the first, as of another month if and only if it is |
| `Calendar.TodayMarked` | desktop-shell/js/modules/apps/calendar-app.js:84-92 | the cell marked as today is the one of its month that holds today |
| `Calendar.ClicksCancel` | desktop-shell/js/modules/apps/calendar-app.js:243-265 | two runs of previous and next show the same month if and only if they went equally far, so the two are inverse |

## Left out

- Unicode case mapping: names fold by ASCII only; `toLowerCase` on other letters is not part of this model.
- JavaScript object keys: integer-like keys that iterate first, and names inherited from `Object.prototype`.
- Root alias keys that share nodes (desktop-shell/js/modules/vfs.js:198-205) and the initial tree; the model starts from an empty root and covers every alias-free tree.
- Timestamps, sizes, tags, update notifications, confirmation dialogs and everything else that is only shown.
- FilesLaws.TrashRoundTrip: restores everything but the position among siblings, which the code does not keep.
- Files.FileManager.GetRecursiveNodes: requires that the keys below the folder can be spelled by path segments, because below a folder named `/`, as a copy of the root is, the source calls itself without end (`SlashLeadsBack`); other keys that hold a slash are left out with it.
- Files.FileManager.EmptyTrash: the user's confirmation is taken as given.
- Terminal.Shell.Cd: the messages printed by the commands are not modelled.
- AisdClient.Client.OnTimer: the error text of a timeout, which in the source names the method and the 30000 ms, is "timed out".
- SpelledPaths.CpSpelled: a source operand that ends in `.`, `..` or a slash, so that what follows its last slash is no name, is covered by `Terminal.Shell.HandleCp` only.
- Inference.RunTools: the model's completions and the tools are arbitrary functions of the prompt; starting the local model server and its errors beyond a failed completion are left out.
- Inference.InferenceState.BeginChat: the text of the tool schema is a parameter.
- Serialisation: JSON and MessagePack appear as decoding and encoding functions, of which only that decoding undoes encoding, and that no encoding is empty, is used.
- Framing.HandleUnixConnection: input and output errors other than the end of the stream.
- Access control, `get_secure_path` and the meaning of the single methods that `dispatch` calls: a result is an arbitrary answer.
- Watcher.QuietIsFresh: counts events that the kernel delivers; directories created later or deeper than four levels are not watched, the 500 ms are not measured (a steady stream of events may put a rebuild off), and no other writer rebuilds at the same time. The polling watcher of other systems is left out.
- Indexer.Index.RebuildIndex: SQL statements succeed; the ranking of `search` is left out.
- WindowLaws.RunsKeepInv: the workspace and the style sheet stay the same during a run; pixels are real numbers; stacking order, cascading and minimizing do not touch the geometry modelled.
- Calendar.CalendarApp.RenderMonthGrid: time zones and the range limit of time values; event dots and the month title are not drawn.
- Calculator, clock, notes, media, settings, installer, compositor and process control: they would add easier members or depend on code that cannot be seen.

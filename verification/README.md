# BExplorer: models and proofs

BExplorer is a desktop file manager. This project models the parts of it that
are algorithms or protocols and proves what their callers rely on:

- **Directory watching** (`ChangeBatch`, `WatchWorker`, `WatchProtocol`): a
  callback, the interface, a worker and a consumer exchange bounded messages;
  no change of a watched directory is lost and the worker never sleeps through
  work, although every wake-up may be dropped.
- **Transfers** (`FileTree`, `FileSystem`, `TempNames`, `Reservations`,
  `TransferCopy`, `TransferCleanup`, `TransferReplace`, `TransferRoots`,
  `TransferRun`, `TransferAccount`, `TransferJob`): copy, move and replace over a tree of files in
  which any call may fail and a cancellation may arrive at any check; over whole
  runs, replacing or not, every source is accounted for, data are conserved,
  completed roots stand and nobody else's entries change, and a cancelled copy is
  undone exactly.
- **Permanent deletion** (`PermanentDelete`): an explicit stack that removes
  exactly the selected subtrees, children first.
- **Wildcards** (`Wildcard`): the one-star loop against the documented relation,
  with the exact condition under which they agree.
- **Duplicates** (`Orderings`, `DisjointSets`, `Duplicate*`): union-find over
  three kinds of links, what names the links stand for, classes of equal content,
  and the check that a deletion leaves a copy.
- **Portable devices** (`PortableTotals`, `PortableMove`): totals over cyclic
  object graphs, and a move that removes only what it has copied.
- **Image cache** (`ImageCache`, `ImageCacheRun`): budgets, recency and
  cancellation tokens, and which completions a whole run accepts.
- **Refreshes** (`DirectoryRefresh`): coalesced reloads without a lost change.
- **Network view and virtual paths** (`NetworkMerge`, `NetworkCache`, `Texts`,
  `VirtualPaths`) and **sizes of selections** (`SizeRoots`).

Objects the program updates in place are classes; what their methods compute is
stated by functions on values, and the long-run claims are lemmas about those.
I/O calls, clocks and choices of the operating system are nondeterministic; calls
that fail are counted, so that "without faults" is a fact about the environment
and not an answer of the code.

Where the code does not meet what its documentation suggests, the exact
condition is proved: a literal `*` in a name (`Wildcard`), nested roots and the
progress total (`PermanentDelete`), an exhausted list of candidate names
(`Reservations`, `TransferRuns.CrowdedIsLost`), a broken link at a name that
counts as free, which a moved file replaces (`TransferRuns.MoveKeepsOthersIff`,
`RenameLosesLinkIff`), a reservation left behind exactly when the comparison of
identities fails (`TransferJobs.TransferRoot`), an image inserted among 2048 pending loads
(`ImageCaches`), selected paths that are no folders above others
(`SizeRoots.RootsAreAntichainIff`), a selected mount below a selected folder
(`SizeRoots.RootsReachSelectionIff`), a stem with a dot-separated suffix that sorts
between a name and its longer variant (`DuplicateBases.PrefixSharesBaseIff`), a
marker that reads as a longer one (`DuplicateFamilies.MarkerGoesIff`) and the empty
trash id (`VirtualPaths`). The
merge of network entries depends on the order for kinds of the catch-all class
only; discovery never reports those, so this needs a cache file edited by hand.

## Model

| member | source | states |
|---|---|---|
| ChangeBatches.TouchesMeans | src/fs/watcher.rs:542-560 | a path touches exactly the directory that it is and the directory that holds it, and nothing further up |
| ChangeBatches.RecordPathsKeepsAll | src/fs/watcher.rs:366-384 | recording paths either keeps every old and new one within the limit of 2048, or gives all names up at once |
| ChangeBatches.RecordKeepsNames | src/fs/watcher.rs:366-384 | a record forgets no directory or path the batch already stood for, adds every new pair, and leaves the batch valid |
| ChangeBatches.RecordAddsOnlyItsNames | src/fs/watcher.rs:366-384 | a record adds exactly the given directories and paths; names are only given up when there are 2048 or more |
| ChangeBatches.FullRefreshNamesEverything | src/fs/watcher.rs:410-418 | after an overflow the batch names every watched directory as a whole and still everything it named before |
| ChangeBatches.RetainKeepsNames | src/fs/watcher.rs:386-393 | dropping unwatched directories loses nothing on a direct child of a directory that stays watched |
| ChangeBatches.RetainedAreWatched | src/fs/watcher.rs:386-393 | and nothing about an unwatched directory stays: every path left is a directory of the batch or lies directly in one |
| ChangeBatches.RetainedChangeKeepsNames | src/fs/watcher.rs:420-428 | the same for a change that is waiting for room in the output channel |
| ChangeBatches.MergeKeepsNames | src/fs/watcher.rs:430-451 | merging two pending changes names whatever either named, by its directory marker if not by path, within the path limit |
| ChangeBatches.DeadlineMeans | src/fs/watcher.rs:351-384 | a record moves the deadline to 700 ms from now but never beyond 2000 ms after the batch began; pruning moves neither limit |
| ChangeBatches.ChangeBatch.Record | src/fs/watcher.rs:366-384 | the mutable batch goes through exactly the recorded value: directories, paths, full refresh and quiet deadline |
| ChangeBatches.ChangeBatch.RetainWatched | src/fs/watcher.rs:386-393 | the mutable batch keeps the watched directories and the paths that touch one of them |
| ChangeBatches.ChangeBatch.IntoChange | src/fs/watcher.rs:395-407 | the emitted change lists the directories, and the paths or, after a full refresh, the directories as markers |
| ChangeBatches.MergeDirectoryChanges | src/fs/watcher.rs:430-451 | the merge through a throw-away batch loses no name of either side |
| WatchWorker.OverflowNamesWatched | src/fs/watcher.rs:263-265 | a raised overflow flag makes the batch name every watched directory |
| WatchWorker.EventDirectories | src/fs/watcher.rs:542-560 | an event concerns exactly the watched directories that it names or that hold something it names, and all of them when it names nothing |
| WatchWorker.SignalNamesItsPaths | src/fs/watcher.rs:266-292 | an event makes the batch name each of its paths under every watched directory it touches; rescans and errors name everything |
| WatchWorker.AbsorbKeepsNames | src/fs/watcher.rs:263-298 | looking at the flag and at the signal in hand loses nothing that the flag, the signal or the batch stood for |
| WatchWorker.DueInTime | src/fs/watcher.rs:299-309 | however events arrive, a batch is due 2000 ms after its first one and 700 ms after its last one |
| WatchWorker.EmissionKeepsNames | src/fs/watcher.rs:299-309 | turning a due batch into the pending output, merged or not, keeps every name of both |
| WatchWorker.DirectoryWorker.ApplyVersion | src/fs/watcher.rs:246-261 | a new version updates the watches, prunes the batch and prunes the pending output to what stays watched |
| WatchWorker.DirectoryWorker.SyncWatchedDirectories | src/fs/watcher.rs:475-498 | afterwards exactly the wanted directories are watched, less those not watched before that the system refuses |
| WatchWorker.DirectoryWorker.RecordFullRefresh | src/fs/watcher.rs:410-418 | the batch object becomes a full refresh of the watched directories, or stays as it was when nothing is watched |
| WatchWorker.DirectoryWorker.Absorb | src/fs/watcher.rs:263-298 | the batch object ends with the value that flag, signal and old batch determine; nothing else changes |
| WatchWorker.DirectoryWorker.Emit | src/fs/watcher.rs:299-309 | exactly a due batch is taken and merged into the pending output |
| WatchWorker.DirectoryWorker.TryPublish | src/fs/watcher.rs:455-473 | a pending change is sent when there is room, dropped when it names no directory, and retained otherwise |
| WatchProtocol.OfferKeepsHeld | src/fs/watcher.rs:316-341 | the callback either queues a notice or has it refused for the overflow flag: it stays held |
| WatchProtocol.SyncKeepsHeld | src/fs/watcher.rs:246-261 | reconfiguring keeps every undelivered notice of a directory that stays watched |
| WatchProtocol.AbsorbKeepsHeld | src/fs/watcher.rs:263-309 | an undelivered notice moves from flag, hand or batch to batch or pending output, never into nothing |
| WatchProtocol.PublishKeepsHeld | src/fs/watcher.rs:455-473 | publishing moves a notice from the pending output to the channel or leaves it there |
| WatchProtocol.StepLosesNothing | src/fs/watcher.rs:213-341 | every step of interface, callback, worker or consumer keeps all undelivered notices held |
| WatchProtocol.StepKeepsWakeUps | src/fs/watcher.rs:213-314 | every step keeps the reasons why work that is left will be noticed |
| WatchProtocol.StepKeepsInv | src/fs/watcher.rs:213-341 | the whole invariant is inductive: queue bounds, wake-ups, and nothing lost |
| WatchProtocol.RunsKeepInv | src/fs/watcher.rs:213-341 | every state of every interleaving satisfies the invariant |
| WatchProtocol.AcceptedIsOwed | src/fs/watcher.rs:316-341 | an accepted event owes each of its paths to the watched directory that it is or that holds it, a rescan or an error owes every watched directory, and nothing else is owed |
| WatchProtocol.NoLostInvalidation | src/fs/watcher.rs:233-341 | over any stretch of any run an accepted notice is still held, or the consumer received a change naming it, or its directory stopped being watched |
| WatchProtocol.NoLostWakeUp | src/fs/watcher.rs:52-79 | a worker blocked on an empty queue, with no thread owing a wake-up, has no overflow, has applied the latest version, and has pending output only when the channel is full |
| WatchProtocol.QuietMeansDelivered | src/fs/watcher.rs:455-473 | once all threads are idle and the channel is read empty, nothing is owed to the consumer |
| WatchProtocol.EventIsDelivered | src/fs/watcher.rs:213-341 | end to end over any run: an event on a watched directory or an entry of it has reached the consumer by the time everything is quiet, unless the directory stopped being watched |
| WatchProtocol.StepVersion | src/fs/watcher.rs:246-261 | the worker object loads the version and, when it is new, applies it exactly as the step system does |
| WatchProtocol.StepAbsorb | src/fs/watcher.rs:263-309 | the worker object absorbs flag and signal and emits a due batch exactly as the step system does |
| WatchProtocol.StepPublish | src/fs/watcher.rs:455-473 | the worker object publishes exactly as the step system does, and what it sends is what reaches the channel |
| WatchProtocol.Turn | src/fs/watcher.rs:233-314 | one turn of the loop takes the object through exactly the worker's steps of the protocol, from the signal in hand back to waiting |
| Wildcard.LaterAttemptPassesNewStar | src/fs/search.rs:472-498 | only the latest star has to be retried: any later match passes the newer star at or after the end of the current attempt |
| Wildcard.StarBecomesLatest | src/fs/search.rs:484-487 | remembering the new star instead of the old one keeps the loop state decisive |
| Wildcard.CharacterConsumed | src/fs/search.rs:479-483 | consuming an accepted character keeps the loop state decisive |
| Wildcard.AttemptFailed | src/fs/search.rs:488-494 | after a mismatch only the later retries of the remembered star are left, or the match is lost |
| Wildcard.TextConsumed | src/fs/search.rs:495-498 | at the end of the text the current attempt is as good as any later one |
| Wildcard.WildcardMatch | src/fs/search.rs:472-498 | the loop terminates; its answer is the relation its branch order decides, and the documented one whenever pattern or text has no star |
| Wildcard.LoopMatchIsSound | src/fs/search.rs:472-498 | whatever is accepted is described by the wildcard |
| Wildcard.AgreeWithoutLiteralStar | src/fs/search.rs:472-498 | without a star in the pattern or in the text the two relations agree |
| Wildcard.LiteralMatchesItself | src/fs/search.rs:472-498 | a query without wildcards matches exactly itself |
| Wildcard.StarStandsForAnything | src/fs/search.rs:472-498 | a query with one star matches exactly the names (without a literal star) that begin and end as it says and are long enough |
| Wildcard.QuestionsMatchByLength | src/fs/search.rs:479-483 | question marks match exactly the names of their number of characters |
| Wildcard.TextIsSafeIffNoLiteralStar | src/fs/search.rs:479-483 | a name is matched as documented by every query exactly when it contains no literal star |
| Wildcard.PatternIsSafeIffNoStar | src/fs/search.rs:479-483 | a query treats every name as documented exactly when it contains no star |
| PermanentDelete.CountMatchesIffNotNested | src/fs/operations.rs:671-698 | the announced total is the number of distinct nodes exactly when no existing root lies inside another one |
| PermanentDelete.CountDeleteEntries | src/fs/operations.rs:671-698 | a complete count is the sum of the sizes of the roots' subtrees |
| PermanentDelete.TopHasNoDescendants | src/fs/operations.rs:722-739 | a directory whose removal is on top of the stack has no entries left |
| PermanentDelete.ExpandMatches | src/fs/operations.rs:707-724 | replacing a visit by the removal and the visits of its children keeps the stack equal to what is left to remove |
| PermanentDelete.TopCanBeRemoved | src/fs/operations.rs:737-746 | what is popped for removal is empty, and removing it keeps the deletion invariant |
| PermanentDelete.DeletePathWithProgress | src/fs/operations.rs:700-752 | removes exactly the subtree, children first, with an exact counter at every exit; it fails only when a call has failed, never on a directory found full, and a stopped removal leaves the root itself standing |
| PermanentDelete.RemoveItem | src/fs/operations.rs:737-746 | one leaf is removed by its own kind, a link as a link |
| PermanentDelete.DeletePermanently | src/fs/operations.rs:630-669 | a complete run removes exactly what the roots reach, and its counter meets the announced total if and only if no existing root is nested; at every exit the completed roots are gone, the next one still stands if it stood when its turn came, and nothing else is touched |
| FileSystems.FileSystem.Rename | src/fs/transfer_queue.rs:913-948 | contract of a rename: all or nothing, and it succeeds only where the system allows it |
| FileSystems.FileSystem.Append | src/fs/transfer_queue.rs:1039-1150 | contract of a write: a failing one may leave a part of the chunk |
| FileSystems.RenameMoves | src/fs/transfer_queue.rs:913-948 | the result of a rename holds the whole subtree at the target, nothing at the source, and all else unchanged |
| FileSystems.RenameKeepsParents | src/fs/transfer_queue.rs:913-948 | a rename leaves a tree in which every entry has its directory |
| TempNames.DecimalIsInjective | src/fs/transfer_queue.rs:1003-1019 | different sequence numbers are written differently |
| TempNames.TempNamesDiffer | src/fs/transfer_queue.rs:1003-1019 | temporary names with different sequence numbers differ, whatever they were made for |
| Reservations.NamesOfCopies | src/fs/transfer_queue.rs:1369-1396 | copy number i of a file called stem.ext is called stem (i).ext, and of a folder stem (i) |
| Reservations.NamesWithoutExtension | src/fs/transfer_queue.rs:1369-1396 | a name without an extension gets its number at the end |
| Reservations.CandidatesDiffer | src/fs/transfer_queue.rs:1379-1396 | candidates with different numbers have different names |
| Reservations.SomeNameIsFree | src/fs/transfer_queue.rs:1379-1396 | as long as fewer than 9999 names of the folder are taken or reserved, one of the candidates is free |
| Reservations.UniqueDestination | src/fs/transfer_queue.rs:1369-1396 | the target is free exactly when one of the 9999 candidates is, which is so whenever fewer than 9999 names of the folder are taken; it is then the first free one, and otherwise the occupied base |
| Reservations.ReservedTargets.ReserveDestination | src/fs/transfer_queue.rs:1326-1367 | each policy gets the plain name or the first free candidate, as it asks; a name held by someone else is handed out only when all are taken |
| Reservations.ReservedTargets.Release | src/fs/transfer_queue.rs:1335-1342 | exactly the given targets are released |
| TransferCopy.Runtime.TrackCreated | src/fs/transfer_queue.rs:199-204 | a created entry is recorded once, at the end |
| TransferCopy.Runtime.ProtectDestination | src/fs/transfer_queue.rs:218-223 | nothing at or below a protected target can be cleaned up any more |
| TransferCopy.Runtime.TrackCompletedRoot | src/fs/transfer_queue.rs:210-216 | a completed root is protected and reported |
| TransferCopy.CopyContent | src/fs/transfer_queue.rs:1104-1134 | the copy loop writes the whole content in chunks, or stops with a fault or a cancellation |
| TransferCopy.CopyLeaf | src/fs/transfer_queue.rs:1050-1150 | one file or link is copied; wherever it stops only the recorded target was added |
| TransferCopy.CopyDirectory | src/fs/transfer_queue.rs:1068-1086 | a directory is created, recorded before its children, and all children are copied into it |
| TransferCopy.CopyPath | src/fs/transfer_queue.rs:1039-1150 | complete copies are exact images of the source; a stopped copy only added recorded entries, each behind its parent; for a move all sources are listed parents first |
| TransferCopy.GrownTwice | src/fs/transfer_queue.rs:1039-1150 | two recorded growths compose: creation order stays parents first |
| TransferCleanup.LastCreatedIsEmpty | src/fs/transfer_queue.rs:1293-1308 | in reverse creation order every directory is empty when its turn comes |
| TransferCleanup.CleanupCreatedTargets | src/fs/transfer_queue.rs:1293-1308 | never touches what was not recorded; without faults it undoes a recorded growth exactly and is never refused |
| TransferCleanup.RemoveSource | src/fs/transfer_queue.rs:1281-1291 | removes one item whatever it is, and nothing outside it |
| TransferCleanup.NextSnapshotIsEmpty | src/fs/transfer_queue/local.rs:305-331 | with the recorded sources removed from the end, the next one is there and empty |
| TransferCleanup.RemoveCopiedSource | src/fs/transfer_queue/local.rs:305-331 | removes only recorded entries below the root and nothing at the installed copy; of an exactly recorded source only faults or cancellation stop it; complete means all gone |
| TransferReplace.UnusedTransferSibling | src/fs/transfer_queue.rs:1003-1019 | a staging or backup name is a free sibling that this run has not used before |
| TransferReplace.CommitStagedPath | src/fs/transfer_queue.rs:973-1001 | either the staged item is installed whole, or it is still whole and the old item is whole at its place or at the backup |
| TransferReplace.InstallOrRestore | src/fs/transfer_queue.rs:984-1000 | with the old item set aside, installing fails over to restoring it; if even that fails it stays whole at the backup |
| TransferReplace.ReplacePathStaged | src/fs/transfer_queue.rs:953-971 | the target is replaced only by a complete copy; stopped anywhere, the old item is whole, what was recorded lies below the staging sibling, and only staging, target and backup places were touched |
| TransferReplace.MovePath | src/fs/transfer_queue.rs:913-948 | a finished move delivered everything and left no source; a stopped one left the source whole or a complete target that cleanup cannot reach; over a broken link only a rename of something other than a folder succeeds, and anything else changes nothing |
| TransferReplace.CopyListsExactly | src/fs/transfer_queue.rs:913-948 | the order in which a copy lists its sources is one in which they can be removed from the end |
| TransferReplace.FreshSiblingIsUntracked | src/fs/transfer_queue.rs:953-971 | a fresh sibling lies above nothing that is still recorded |
| TransferRoots.CleanupConserves | src/fs/transfer_queue.rs:1316-1320 | the cleanup after a cancellation keeps moved data whole at source, target or backup, and a replaced item whole |
| TransferRoots.PlaceRoot | src/fs/transfer_queue.rs:661-668 | one root with a free target: complete, or stopped with the data out of the cleanup's reach; nothing beside source and target changes, and between roots no recorded entry exists |
| TransferRoots.ReplaceStopped | src/fs/transfer_queue.rs:953-971 | what a stopped replacement leaves behind is out of the cleanup's reach |
| TransferRoots.ReplaceRoot | src/fs/transfer_queue.rs:653-668 | one root that replaces: complete at the target, or the old item and the source data are whole and protected; every other entry stays as it was, and what is new lies in new entries of the destination |
| TransferRoots.RemoveReplacedSource | src/fs/transfer_queue.rs:656-660 | removing a moved source never touches the item just installed or anything beside the source |
| TransferRoots.EffectAfterCleanup | src/fs/transfer_queue.rs:1293-1320 | the cleanup, whatever part of it fails, leaves the frame of a stopped root as it was |
| TransferRuns.RootKeepsOthers | src/fs/transfer_queue.rs:620-674 | entries that lie below no moved source and no overwritten target are unchanged after one more root |
| TransferRuns.RootsStandStill | src/fs/transfer_queue.rs:620-674 | whatever a later root does, each completed root keeps, entry by entry, the copy at its target, apart from what a later move takes from there |
| TransferRuns.StandsWhole | src/fs/transfer_queue.rs:210-223 | a completed root that no later move takes apart is still an exact copy at its target |
| TransferRuns.RootKeepsAll | src/fs/transfer_queue.rs:652-668 | one root, finished or stopped, replacing or not, keeps every other source whole at its place |
| TransferRuns.RootKeepsSources | src/fs/transfer_queue.rs:652-668 | so sources that lie apart, and not below an overwritten target, all stay whole somewhere |
| TransferRuns.OutsideStays | src/fs/transfer_queue.rs:620-682 | so whatever lies outside the destination and below no moved source survives the whole run unchanged |
| TransferRuns.RootAddsCopy | src/fs/transfer_queue.rs:661-668 | a copied root leaves the earlier copies and all old entries as they were |
| TransferRuns.RootLanded | src/fs/transfer_queue.rs:621-673 | the inductive step of a run: a root that landed at a target nobody held keeps all of this |
| TransferRuns.StopKeepsEverything | src/fs/transfer_queue.rs:676-678 | however a run stopped, and whatever part of the cleanup failed: other entries are unchanged, completed roots stand, and every source is whole somewhere |
| TransferRuns.MoveKeepsOthersIff | src/fs/transfer_queue.rs:913-925 | a move that replaces nothing keeps every entry but its sources if and only if no root landed on a broken link |
| TransferRuns.NoLinkNoLoss | src/fs/transfer_queue.rs:1369-1396 | with no link standing in the destination beforehand, and for copies always, nothing is written over |
| TransferRuns.RenameLosesLinkIff | src/fs/transfer_queue.rs:1369-1396 | for a free target: the rename happens and costs another entry exactly when a broken link stands there and the source is no folder |
| TransferRuns.RenameLosesIff | src/fs/transfer_queue.rs:913-925 | for any name in the destination: a rename costs another entry exactly when it succeeds over an item that is no folder and differs from the source, which is no folder either |
| TransferRuns.CrowdedIsLost | src/fs/transfer_queue.rs:1379-1396 | a folder in which all 9999 names are taken: the search returns the plain name, and a move destroys the file that stands there |
| TransferRuns.LinkIsLost | src/fs/transfer_queue.rs:913-925 | a move of one file to a free name that destroys the link standing there |
| TransferJobs.Prepare | src/fs/transfer_queue/local.rs:167-202 | accepts only sources that are not at or above the destination, and refuses only those |
| TransferJobs.SameFile | src/fs/transfer_queue/local.rs:52-58 | two paths are the same file exactly if they are equal, or something stands at the second and the system shows one file under both; a failing question has failed |
| TransferAccounts.LandsByName | src/fs/transfer_queue.rs:621-668 | where a source lands: under its own name in the destination, or, if that name is taken and both are kept, under another free name in the same folder |
| TransferAccounts.LandsNumbered | src/fs/transfer_queue.rs:1369-1396 | the other name of a copy: a file stem.ext becomes stem (i).ext, a folder stem (i), with a number from 2 to 9999 |
| TransferAccounts.NothingSkippedKeepingBoth | src/fs/transfer_queue.rs:621-650 | with both kept, an existing source is never skipped while the folder has a name left |
| TransferAccounts.NothingSkippedReplacing | src/fs/transfer_queue.rs:621-650 | with replacement, every existing source but one at its own place lands at its own name |
| TransferAccounts.EverySourceLands | src/fs/transfer_queue.rs:620-674 | over a whole run that keeps both, every source that exists when its turn comes lands at a name that was free |
| TransferAccounts.NoReasonToStop | src/fs/transfer_queue.rs:620-674 | with a name left, no link leading to nothing at the target, and moved sources apart from each other and from the target, a run has no reason to stop |
| TransferJobs.ChooseTarget | src/fs/transfer_queue.rs:621-650 | passes a source over only if it is gone or has no name, its name is taken under Skip, it would be placed upon itself, or the first look at it failed; gives up only when no name is left, and halts only on a cancellation or a failed call |
| TransferJobs.TransferRoot | src/fs/transfer_queue.rs:621-668 | checks, reservation and transfer of one root; it is skipped only for one of the four reasons or when the first look at the source failed, a started root lands where its policy says, and it fails only after a failed call, over a link leading to nothing, or for a source that is not apart; the new reservation leaks if and only if comparing identities failed |
| TransferJobs.StartRoot | src/fs/transfer_queue.rs:651-673 | replacing or placing one root: complete, or stopped with its data safe, and nothing beside its source and target touched |
| TransferJobs.RunRoot | src/fs/transfer_queue.rs:620-674 | one turn of the loop keeps everything that a run keeps, and a stop is explained |
| TransferJobs.RunRoots | src/fs/transfer_queue.rs:620-674 | each root landed complete at a target nobody held, where its policy says, or was skipped for one of the four reasons (or unseen, its first look having failed); a stop has its cause; all that a run keeps holds after the last root; a reservation leaks if and only if the last comparison failed |
| TransferJobs.Clean | src/fs/transfer_queue.rs:676-678 | a stopped run, cleaned up or not, keeps everything that holds between roots, and a cancelled copy without faults is undone exactly |
| TransferJobs.RunTransfer | src/fs/transfer_queue.rs:587-682 | the whole run, with or without replacement: every source is accounted for, as landed or with the reason to skip it, and a stop has its cause; other entries are unchanged, completed roots stand, sources are whole somewhere, and the data of a stopped root are conserved; a copy without replacement that completes, or is cancelled and cleaned up, leaves the old tree plus the completed roots; all reservations are given back but the one of a failed comparison |
| DisjointSets.RootsAreUnique | src/fs/duplicates.rs:561-590 | the parent array alone determines the root of every index |
| DisjointSets.CompressionKeepsRoots | src/fs/duplicates.rs:572-581 | path compression moves no root |
| DisjointSets.JoiningMergesRoots | src/fs/duplicates.rs:583-589 | pointing one root at another merges exactly their two groups and leaves a forest |
| DisjointSets.DisjointSet.Root | src/fs/duplicates.rs:572-581 | terminates on every reachable parent array, returns the root, changes no root |
| DisjointSets.DisjointSet.Join | src/fs/duplicates.rs:583-589 | two indexes share a root afterwards exactly if they did before or the join connects them |
| DuplicateNames.BaseDoesNotReturn | src/fs/duplicates.rs:416-437 | in stem order a base that was given up does not come back |
| DuplicateNames.OneBasePerStem | src/fs/duplicates.rs:416-437 | all files with one stem have one base |
| DuplicateNames.StemOrdersAgree | src/fs/duplicates.rs:415 | however an unstable sort leaves equal stems, the sorted stems are the same |
| DuplicateNames.ChainsJoin | src/fs/duplicates.rs:375-447 | being connected by links is transitive |
| DuplicateFamilies.FamilyOfCopy | src/fs/duplicates.rs:500-537 | a stem loses exactly one copy marker and one counter, with the white space around them, as long as three characters are left |
| DuplicateFamilies.UsualNames | src/fs/duplicates.rs:500-537 | s, s (n), s with a marker, and s with a marker and (n) all come out as s |
| DuplicateFamilies.MarkerGoesIff | src/fs/duplicates.rs:505-509 | a marker is taken off to the last character exactly if it does not read as a longer one together with what stands before it |
| DuplicateFamilies.CopiesAreConnected | src/fs/duplicates.rs:401-413 | two files of one extension that are copies of one stem are one family and connected |
| DuplicateFamilies.CopiesAreListed | src/fs/duplicates.rs:401-483 | so both are listed, and not both as the original |
| DuplicateBases.PrefixSharesBaseIff | src/fs/duplicates.rs:415-437 | in stem order, what begins with a stem of three or more characters has the same base exactly if that stem is not its own base, or no stem in between adds a suffix with a dot |
| DuplicateBases.PrefixesAreConnected | src/fs/duplicates.rs:415-437 | so a file whose stem begins with another is connected with it if no scanned file of that extension goes on from there with a dot |
| DuplicateBases.ConnectedShareBeginning | src/fs/duplicates.rs:375-437 | however many links lie between them, files of one group have one extension, and one stem or the same first three characters |
| DuplicateBases.ShortStemsNeedEqualKeys | src/fs/duplicates.rs:375-424 | files with stems of fewer than three characters are linked exactly if name, extension and size agree |
| DuplicateBases.DotSuffixStaysOut | src/fs/duplicates.rs:490-498 | two files of which one adds a dot-separated suffix to the other are not listed |
| DuplicateGroups.JoinKeys | src/fs/duplicates.rs:375-388 | files equal in name, extension and size share a root, and only connected files do |
| DuplicateGroups.JoinFamilies | src/fs/duplicates.rs:401-413 | files of one copy family share a root although only neighbours are joined |
| DuplicateGroups.JoinBases | src/fs/duplicates.rs:416-437 | files with one base in stem order share a root although each is joined to its base only |
| DuplicateGroups.JoinExtensions | src/fs/duplicates.rs:390-437 | both families are joined for every extension, in any order of extensions |
| DuplicateGroups.ChainHasOneRoot | src/fs/duplicates.rs:375-447 | a chain of links has one root |
| DuplicateGroups.FindGroups | src/fs/duplicates.rs:375-447 | two files get one root exactly when a chain of links of the three families connects them |
| DuplicateCandidates.SortedGroup | src/fs/duplicates.rs:457-465 | sorted by age a group lists each member once, and only the first is its oldest |
| DuplicateCandidates.NameCandidates | src/fs/duplicates.rs:367-483 | each group of two or more is listed, every member once, its one oldest file as Original and the others as Possible; single files are not listed |
| DuplicateCandidates.OriginalIsOldest | src/fs/duplicates.rs:457-465 | the original of a group was created, or lacking that date written, no later than any other of its files |
| DuplicateContents.FillBuckets | src/fs/duplicates.rs:228-249 | buckets hold only files that are still what the scan saw, by size and digest; without faults all that share a size |
| DuplicateContents.FirstNames | src/fs/duplicates.rs:256-260 | of several names of one inode the oldest is retained |
| DuplicateContents.SplitClasses | src/fs/duplicates.rs:261-281 | classes partition the retained files by content; without faults different classes have different contents |
| DuplicateVerdicts.FollowerIsExact | src/fs/duplicates.rs:255-287 | whoever follows in a class is the first name of its inode and has an older copy in another inode |
| DuplicateVerdicts.ExactIsFollower | src/fs/duplicates.rs:255-287 | conversely every such file follows in some class |
| DuplicateVerdicts.MemberIsFirst | src/fs/duplicates.rs:256-281 | each member of a class is the oldest scanned name of its inode |
| DuplicateVerdicts.ApplyClass | src/fs/duplicates.rs:282-305 | a class overwrites or adds exactly the verdicts of its members |
| DuplicateVerdicts.JudgeBucket | src/fs/duplicates.rs:255-306 | one bucket keeps all earlier verdicts and decides its own files |
| DuplicateDeletion.VerifiedDuplicates | src/fs/duplicates.rs:222-316 | every Exact file is listed beside an older Original with the same bytes in another inode, and every Original is the oldest of its group or has an Exact copy listed; without faults the verdict on every file is fixed: Exact, Original or Possible by content first and by name groups otherwise, or not listed |
| DuplicateDeletion.ExactMeans | src/fs/duplicates.rs:228-305 | an exact copy has its bytes in another inode, under the name of a listed original that was not created later, and neither file has changed in size or time since the scan |
| DuplicateDeletion.CopyIsExact | src/fs/duplicates.rs:228-305 | conversely the younger of two unchanged files with one content in two inodes is an exact copy, if it is the only scanned name of its inode |
| DuplicateDeletion.DecidedLeads | src/fs/duplicates.rs:282-305 | what a class judged without calling it an exact copy is the first name of its inode and has a younger copy in another one |
| DuplicateDeletion.LeaderIsDecided | src/fs/duplicates.rs:255-305 | conversely every oldest file with a copy in another inode is judged |
| DuplicateDeletion.FindKeeper | src/fs/duplicates.rs:341-356 | a keeper is found exactly when an unselected entry holds the same bytes in another inode |
| DuplicateDeletion.VerifyDeleteSelection | src/fs/duplicates.rs:320-365 | accepts only if every selected path is listed and every selected Exact file has a keeper; without faults it accepts exactly then |
| DuplicateDeletion.DeletionLeavesACopy | src/fs/duplicates.rs:320-365 | after an accepted deletion the bytes of every deleted Exact file are still on the disk in another inode |
| DuplicateDeletion.ExactCopiesMayGo | src/fs/duplicates.rs:320-365 | on an unchanged disk any subset of the Exact files passes the check |
| PortableTotals.RepeatFound | src/fs/portable.rs:115-120 | a repeated id means two different ways to one object |
| PortableTotals.FolderVisited | src/fs/portable.rs:121-125 | pushing the children keeps visited and waiting ways apart and covers everything reachable |
| PortableTotals.AllSeen | src/fs/portable.rs:113-130 | with an empty stack everything reachable was visited and no id repeats |
| PortableTotals.CollectObjectTotals | src/fs/portable.rs:104-131 | terminates on any finite graph, cyclic or not; answers exactly when no id is reached twice and every reached folder can be listed, with the saturated sum of the file sizes, the file count and each folder listed once, whatever the order |
| PortableMove.ValidateInventory | src/fs/portable.rs:317-343 | only looks; passes when every entry is unchanged and lists only copied children, refuses exactly when one entry is a device root, was seen with another id, name, kind or size, has no known size, or lists an uncopied child |
| PortableMove.RemoveNext | src/fs/portable.rs:288-296 | an entry is removed right after it was seen with the same id, name, kind and known size, and empty if it is a folder; it is refused exactly when one of these differs |
| PortableMove.RemoveExportInventory | src/fs/portable.rs:276-298 | under any changes by the device a first part of the inventory is removed, in order and each entry once, and all of it exactly on success; a steady device loses exactly the inventory |
| PortableMove.RemovalsAreJustified | src/fs/portable.rs:276-343 | each removal in a safe run is of an inventory entry just seen with the same id, name, kind and size, a file of known size or an empty folder, after a first pass that found everything unchanged |
| PortableMove.SafeRunRemovesPrefix | src/fs/portable.rs:276-298 | the removals in a safe run are, in order, those of a first part of the inventory |
| PortableMove.PostorderIsOrdered | src/fs/portable.rs:540-590 | in the exported order every entry comes after all its children |
| PortableMove.ExportObject | src/fs/portable.rs:540-590 | export of a steady device yields the postorder inventory and the number of files, and fails only when a call has failed |
| PortableMove.FileCountMeans | src/fs/portable.rs:540-590 | the number of files that an export reports is that of the files in its inventory |
| PortableMove.CountedIsTree | src/fs/portable.rs:104-131 | a count that came to an end has found a finite tree of objects in which no id repeats |
| PortableMove.TreeHasUniqueIds | src/fs/portable.rs:104-131 | objects with one way each have different ids in the inventory |
| PortableMove.InventoryIsBelow | src/fs/portable.rs:104-131 | the exported inventory names exactly the objects that can be reached from the root, and can be removed exactly if every file among them has a known size and none is called like a root |
| PortableMove.MoveOffDevice | src/fs/transfer_queue.rs:704-836 | a steady device whose objects were counted loses exactly what can be reached from the moved object, once each and children first; without faults and cancellation it does so if and only if every file there has a known size and no device root is among them |
| ImageCaches.SumWithoutEmpty | src/iced_ui/image_cache.rs:117-127 | dropping entries that occupy nothing leaves the byte count right |
| ImageCaches.VictimEvicted | src/iced_ui/image_cache.rs:289-306 | one more eviction keeps the order of eviction, spares loads, and evicts nothing without need |
| ImageCaches.ImageCache.EnforceBudget | src/iced_ui/image_cache.rs:289-306 | terminates within both budgets; survivors are the latest used of their kind, a load goes only when there are too many entries and nothing else is left, and exactly the flags of what went are set |
| ImageCaches.ImageCache.Remove | src/iced_ui/image_cache.rs:201-205 | removal keeps the byte count exact, sets exactly the flag of the entry and changes nothing else |
| ImageCaches.ImageCache.Get | src/iced_ui/image_cache.rs:69-74 | a lookup makes the entry the latest used and changes nothing else |
| ImageCaches.ImageCache.Prepare | src/iced_ui/image_cache.rs:82-99 | a request is needed exactly when the slot does not hold this version; then a new load with a new token stays, what it displaced is cancelled, and other entries go only by eviction; otherwise only the recency changes |
| ImageCaches.ImageCache.RequestToken | src/iced_ui/image_cache.rs:106-115 | the token of an entry is handed out once and is uncancelled; nothing else changes |
| ImageCaches.ImageCache.InsertWithSource | src/iced_ui/image_cache.rs:211-238 | the inserted entry stays if and only if it fits and is a load or fewer than 2048 other loads are pending; what it displaced is cancelled, and other entries go only by eviction |
| ImageCaches.NewestSurvives | src/iced_ui/image_cache.rs:211-238 | the same condition for any entry that was used last |
| ImageCaches.ImageCache.Complete | src/iced_ui/image_cache.rs:242-270 | accepts exactly the uncancelled token of the loading entry; otherwise nothing changes; an accepted image that fits is what the slot then holds, with its size, a larger one is remembered as missing; no pending load is evicted |
| ImageCaches.ImageCache.ClearPortableMisses | src/iced_ui/image_cache.rs:117-121 | drops exactly the missing portable images and sets their flags, with the byte count still exact |
| ImageCaches.ImageCache.CancelPendingExcept | src/iced_ui/image_cache.rs:123-127 | drops exactly the pending loads that are not kept, sets their flags and changes nothing else |
| ImageCaches.ImageCache.InvalidatePaths | src/iced_ui/image_cache.rs:129-138 | drops exactly the entries at one of the paths or made from one, sets their flags and changes nothing else |
| ImageCaches.ImageCache.InvalidateDirectory | src/iced_ui/image_cache.rs:179-187 | drops exactly the entries in the directory or made from a file in it, sets their flags and changes nothing else |
| ImageCaches.ImageCache.ReconcileSources | src/iced_ui/image_cache.rs:140-175 | drops exactly the images whose file the listing knows in another version, sets their flags, names those files and changes nothing else |
| ImageCaches.ImageCache.TrimTo | src/iced_ui/image_cache.rs:274-287 | kept entries survive, others go in order of last use and none without need; above the target only kept entries remain; exactly the flags of what went are set and nothing else changes |
| ImageCaches.ShrunkOneMore | src/iced_ui/image_cache.rs:289-306 | one more eviction in the loop keeps its order and sets exactly one more flag |
| ImageCacheRuns.StepKeepsInv | src/iced_ui/image_cache.rs:69-306 | every operation keeps budgets, byte counts and recency, and exactly the tokens of present entries uncancelled; it takes no flag back and issues no token twice |
| ImageCacheRuns.RunsKeepInv | src/iced_ui/image_cache.rs:57-306 | so does every sequence of operations from an empty cache |
| ImageCacheRuns.AcceptedIffNeverDisturbed | src/iced_ui/image_cache.rs:240-256 | in every run a completion is accepted if and only if its request has occupied the slot without an answer ever since it was issued: not replaced, invalidated, trimmed or evicted |
| ImageCacheRuns.LateCompletionChangesNothing | src/iced_ui/image_cache.rs:240-256 | in every run, once its entry has left the slot by whatever operation, a token stays cancelled for good and a late completion with it changes nothing |
| ImageCacheRuns.AnsweredOnce | src/iced_ui/image_cache.rs:242-270 | in every run the second completion for one request changes nothing |
| ImageCacheRuns.DeliveredIsShown | src/iced_ui/image_cache.rs:242-270 | an accepted image that fits is what the slot shows |
| ImageCacheRuns.ShownUntilTakenOut | src/iced_ui/image_cache.rs:69-306 | in every run a delivered image is shown exactly until an operation drops, replaces or evicts its entry |
| ImageCacheRuns.LoadsSurviveBytes | src/iced_ui/image_cache.rs:289-306 | a pending load is only lost when it is dropped or replaced, or to a new entry among 2048 others when nothing but loads remains: never to byte pressure or to a completion |
| DirectoryRefreshing.StepKeepsInv | src/iced_ui/directory_refresh.rs:37-84 | every operation keeps: no change forgotten, and exactly the tokens of running loads uncancelled |
| DirectoryRefreshing.RunsKeepInv | src/iced_ui/directory_refresh.rs:28-85 | so does every sequence of operations |
| DirectoryRefreshing.NoLostRefresh | src/iced_ui/directory_refresh.rs:37-84 | in every run a change that nothing dropped is pending, or covered by a running load begun after it, or was covered by an accepted one |
| DirectoryRefreshing.ChangeIsOwedUntilCovered | src/iced_ui/directory_refresh.rs:68-74 | a change stops being owed only when a load begun after it is accepted |
| DirectoryRefreshing.StaleTicketsStayStale | src/iced_ui/directory_refresh.rs:68-74 | a ticket that was finished, cancelled or dropped is never accepted again |
| DirectoryRefreshing.OneFollowUp | src/iced_ui/directory_refresh.rs:37-74 | over any run: while a load runs no second one can begin, and after it one refresh is ready, and one change owed, exactly when the path was queued in between, whatever else happened |
| DirectoryRefreshing.DirectoryRefreshes.QueuePath | src/iced_ui/directory_refresh.rs:37-39 | the object takes exactly the queueing step |
| DirectoryRefreshing.DirectoryRefreshes.StartLoad | src/iced_ui/directory_refresh.rs:49-66 | one load for each path: a second start is refused, a new ticket is uncancelled and was never used |
| DirectoryRefreshing.DirectoryRefreshes.FinishLoad | src/iced_ui/directory_refresh.rs:68-74 | accepts exactly the ticket of the running load and cancels its token |
| DirectoryRefreshing.DirectoryRefreshes.CancelPath | src/iced_ui/directory_refresh.rs:76-79 | drops the pending refresh and the running load of a path |
| DirectoryRefreshing.DirectoryRefreshes.RetainVisible | src/iced_ui/directory_refresh.rs:81-84 | drops everything about other paths and cancels their tokens |
| DirectoryRefreshing.DirectoryRefreshes.DeferForSearch | src/iced_ui/search_state.rs:384-393 | entering a search cancels the running listing and leaves exactly one refresh for the return |
| NetworkMerge.MergeKeepsUnique | src/fs/explorer.rs:1124-1164 | identities stay unique |
| NetworkMerge.OneMeans | src/fs/explorer.rs:1124-1164 | one more word about a listed host: the entry keeps place and path, takes over all that was heard or stays as it is, a printer and a scanner make a multifunction device, and a change is reported exactly if there is one |
| NetworkMerge.MergeEntriesChanged | src/fs/explorer.rs:1124-1164 | the in-place merge with its index map computes the fold of single merges, and identities stay unique |
| NetworkMerge.BatchesCompose | src/fs/explorer.rs:1124-1164 | splitting discoveries into batches makes no difference |
| NetworkMerge.ReMergeIsQuiet | src/fs/explorer.rs:1124-1164 | merging a snapshot again changes nothing and reports no change |
| NetworkMerge.QuietMeansSame | src/fs/explorer.rs:1124-1164 | no reported change means no change |
| NetworkMerge.StoredKindIsFold | src/fs/explorer.rs:1124-1164 | the stored kind of a host is the fold of all kinds heard of it |
| NetworkMerge.FoldIsJoin | src/fs/explorer.rs:1279-1289 | the fold is a join: the highest kind, a printer and a scanner making a multifunction device |
| NetworkMerge.StoredKindMeans | src/fs/explorer.rs:1124-1164 | which kind a host ends up with: multifunction if called that or both printer and scanner, else printer or scanner, computer, device, network, before any other kind, before none |
| NetworkMerge.OrderDoesNotMatter | src/fs/explorer.rs:1124-1164 | the stored kind depends only on which kinds were heard, not on order, number or batching, unless the set is ambiguous |
| NetworkMerge.DiscoveryOrderDoesNotMatter | src/fs/explorer.rs:1353-1360 | computers, printers, scanners, multifunction devices and other devices, which is what discovery reports, are never ambiguous: for them the order does not matter at all |
| NetworkMerge.AmbiguousDependsOnOrder | src/fs/explorer.rs:1279-1289 | with two different kinds of the catch-all class and no network kind some other order gives another result |
| NetworkCaches.NetworkRootCache.Prune | src/fs/explorer.rs:1025-1061 | afterwards the times belong exactly to the entries; up to 4096 entries all and only those seen in the last 1800 s (or at most 60 s ahead) stay, beyond that the latest seen |
| NetworkCaches.NetworkRootCache.Merge | src/fs/explorer.rs:1087-1105 | pruned again; what is kept of the merged list is all of it when there is room and the latest seen otherwise, what was found counting as seen now |
| VirtualPaths.Utf8RoundTrip | src/fs/explorer.rs:1669-1680 | UTF-8 decoding inverts encoding |
| VirtualPaths.HexBytesRoundTrip | src/fs/explorer.rs:1638-1646 | hexadecimal decoding inverts encoding of bytes |
| VirtualPaths.HexRoundTrip | src/fs/explorer.rs:1634-1680 | and of texts |
| VirtualPaths.SegmentRoundTrip | src/fs/explorer.rs:1620-1632 | a segment gives back its id and every label that is not blank |
| VirtualPaths.HostIsFound | src/fs/explorer.rs:652-654 | a host path, and anything below it, is located at that host |
| VirtualPaths.ObjectIsFound | src/fs/explorer.rs:1592-1606 | a device path names the root object, and a chain of object segments names the last one |
| VirtualPaths.TrashIdIsFound | src/fs/explorer.rs:644-646 | a trash id names an item, except the empty one, which names the trash itself |
| VirtualPaths.PortableMeans | src/fs/explorer.rs:1583-1609 | every object of a portable device is a portable path; the trash, network hosts and real places are not |
| VirtualPaths.TrashPathsDiffer | src/fs/explorer.rs:644-646 | different trash ids have different paths |
| VirtualPaths.HostPathsDiffer | src/fs/explorer.rs:652-654 | different hosts have different paths |
| VirtualPaths.ObjectPathsDiffer | src/fs/explorer.rs:656-660 | object paths coincide exactly when device, its name, and every step with its id and caption agree |
| VirtualPaths.PlacesNeverMeet | src/fs/explorer.rs:1578-1609 | trash, network and portable paths never coincide |
| SizeRoots.MinimalSizeRoots | src/fs/properties.rs:1248-1271 | the result is, without repeats, exactly the selected paths with no other selected folder above them |
| SizeRoots.RootsAreAntichain | src/fs/properties.rs:1248-1271 | no root that exists lies below another |
| SizeRoots.RootsAreAntichainIff | src/fs/properties.rs:1248-1271 | two roots, existing or not, are comparable exactly when some selected path lies below another one that is no folder and has no selected folder above it |
| SizeRoots.RootsCoverSelection | src/fs/properties.rs:1248-1271 | the roots lie at or above exactly what the selected paths lie at or above |
| SizeRoots.RootsIgnoreOrder | src/fs/properties.rs:1248-1271 | order and repeats in the selection make no difference |
| SizeRoots.TotalMeans | src/fs/properties.rs:1208-1246 | the totals: one more entry adds its length and 512 for each block, and a file nothing if another of its names was met |
| SizeRoots.OneMoreCounted | src/fs/properties.rs:1208-1246 | adding an entry adds its length and its blocks, a file only when its inode is new |
| SizeRoots.CalculateSize | src/fs/properties.rs:1132-1206 | at every exit, cut short or not, the size is that of the entries met: each once, each inode once across all roots, saturated sums of lengths and blocks; a complete calculation in which nothing failed has met all that the walks of the roots reach, and counts as unreadable every failure and every root that does not exist |
| SizeRoots.RootsReachSelectionIff | src/fs/properties.rs:1248-1271 | the walks of the roots reach all that those of the selected paths reach if and only if no selected path lies across a mount below another selected folder |
| SizeRoots.WithoutMountsAllIsReached | src/fs/properties.rs:1132-1206 | on one file system the walks of the roots reach everything at or below the selection |
| SizeRoots.MountIsLost | src/fs/properties.rs:1124-1185 | a selected mount below a selected folder: its file is in the selection and in no walk of a root |

## Left out

- Wildcard: the other name matchers (substring, regular expression, extension lists), case folding and the batching of search results are not modelled.
- WatchProtocol: path vectors are unordered, pausing and synchronizing the watches (Windows only) and a disconnected channel are left out; the clock values a step sees are arbitrary, and events that change nothing (such as accesses) are not notices.
- WatchWorker.DirectoryWorker.SyncWatchedDirectories: which directories the system refuses to watch is a parameter.
- FileSystems: a failing call is counted and otherwise nondeterministic; one tree without hard links, mount points or symbolic links inside paths; nobody else writes during a transfer or a deletion, and a link is taken to hold the path it leads to.
- PermanentDelete: the trash, cloud placeholders and per-item progress events are left out.
- TransferJobs.RunTransfer: transfers from or to portable devices, pausing, progress, byte totals, and errors after which an elevated operation may continue are left out.
- TransferJobs.Prepare: does not look for unsupported file types or directory cycles, which the tree cannot hold; the byte totals it gathers are left out.
- TransferJobs.TransferRoot: a root stops as crowded when all 9999 names are taken (the program then works on the occupied base, so a move replaces it: `TransferRuns.CrowdedIsLost`) or when its target is named like a temporary sibling already used; which pairs of paths show one file is a fixed relation of the file system; a source whose first look fails for whatever reason is silently passed over, as in the program, and such roots are named (`blind`).
- TransferReplace.MovePath: that the removal of the source is never refused is stated for sources that no earlier root has listed.
- TransferReplace.UnusedTransferSibling: the process-wide counter is unbounded and has one user; a broken link that bears the next temporary name of this process counts as taken (the program would fail to copy there and then remove it).
- TransferCleanup.RemoveCopiedSource: identity, size, time and link of a recorded entry are reduced to its presence outside the installed copy, since nobody else writes meanwhile.
- TransferRuns.StandsWhole: a completed root is compared with its source as it was when that root began.
- TransferCopy.CopyContent: permissions, times and sparse files are left out; the look back at the captured source can only fail, since nobody else writes.
- Reservations: a path is its own key; the lock around the set is left out.
- DuplicateGroups.FindGroups: cancellation, progress and the scan of the folder are left out, and so is the final display order of the list.
- DuplicateContents: the disk holds still while it is read; that equal contents have equal digests is the only thing assumed of the digest.
- DuplicateNames: names, stems and extensions are taken as the scan prepares them; lower-casing is not modelled.
- DuplicateBases.ConnectedShareBeginning: stems are trimmed and files of one name have one stem, as the scan sees to.
- PortableMove.ExportObject: stated for a device that holds still, since a changing one can extend the recursion for ever; the local files it writes are left out.
- PortableMove.MoveOffDevice: the device holds still and gives for an object what its folder lists.
- PortableMove: one device, and removal of a folder never removes what is below it.
- PortableTotals: object data come with the listing; the separate request for the root is left out.
- ImageCaches: abort handles, decoding and the choice of what to load are left out; the clock does not wrap.
- ImageCacheRuns: which entries a bulk removal drops is left open in a run; the methods of the cache say it.
- DirectoryRefreshing: the sequence number does not wrap; loading and displaying the listing are left out.
- NetworkMerge: only name, kind and file system of an entry are kept; how letter case enters an identity is a parameter.
- NetworkCaches: the provider filter of Windows, saving to disk and the display order (folders first, case folded) are left out.
- VirtualPaths: display names, breadcrumbs and Windows encodings of trash ids are left out.
- SizeRoots.CalculateSize: the progress callback is left out; when it asks to stop, that counts as a cancellation.
- Archives, elevated helpers, clipboard, thumbnails, views, sessions, configuration and storage analysis are not modelled; their claims would be easy or belong to libraries.

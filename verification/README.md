# Storage consistency of the file server

This project models the part of the server that keeps its file metadata, its blobs and its undo journal consistent, and proves what that code promises over whole runs, failures and interleavings included. The repositories' SQL statements are modelled as operations on in-memory tables, their constraints as refusals; the services are classes whose methods follow the JavaScript step by step, each tied to a step predicate or to a function on the tables. Theorems about runs are stated on those steps. Beside the steps, the contracts say the ordinary answers in terms of the tables alone: fields, names, statuses, ages, sizes.

Five parts:

- **The namespace tree** (`Tree`, `Paths`, `Ancestry`, `TreeSteps`, `FileNodes`, `RestoreName`, `Trash`, `TrashService`, `TreeRuns`): parent pointers with the closure table `node_ancestors`, moves with their queue rebuild, soft delete, restore, purges. The operations are modelled over any closure table, complete or not. What every run keeps is that closure rows are true; what keeps the closure complete is characterised operation by operation.
- **The S3 blob lifecycle** (`ObjectMap`, `UploadStates`, `Uploads`, `FailSafe`, `Gc`, `BlobRuns`, `BlobSafety`, `BlobLosses`, `BlobProgress`, `Tier2Safety`): uploads and overwrites with every call able to fail, their rollback, the repair of stuck nodes, purges, and garbage collection Tiers 1 and 2, first method by method, then as one system of many nodes whose transactions and bucket calls interleave. In that system repairs read before they commit, and purges delete blob by blob before the rows.
- **WebDAV reconciliation** (`KeptKeys`, `GcWebdav`): the kept set of remote paths is closed under ancestor directories, so deleting a collection, which section 9.6.1 of RFC 4918 makes recursive, never reaches anything kept.
- **The undo journal** (`Collections`, `CollectionEffects`, `CollectionUndo`, `UndoConstraints`, `Journal`, `JournalRuns`, `JournalReplay`): numbered chains of collection commands with recorded inverses, plain and cascading undo, expiry, under the unique active names of an owner and the foreign keys to nodes. The state of a collection is the replay of its changes not undone, less the nodes purged.
- **Two small ones**: the time-to-live cache of the configuration resolver (`ConfigResolver`, `ConfigRuns`) and the dotenv merge writer (`EnvFile`, `EnvPattern`, `EnvFileLaws`).

`dafny verify dfyconfig.toml` checks everything.

## What the proofs found

Where the code does not meet a promise in general, the project keeps the code as it is, proves exactly when it does meet the promise, and gives a lemma with a failing case.

- *Moves lose closure rows.* The rebuild deletes the closure rows of the whole subtree, trashed rows included, but walks live children only. The closure stays exact if and only if nothing strictly below the moved node is trashed (`TreeSteps.MoveExactIff`). Trash `/a/b` and move `/a`: the cycle check no longer sees `b` below `a` and lets a move of `a` into `b` commit a pointer cycle; if `b` is restored first, the rebuild of that move never ends; and no purge removes the lost `b` (`TreeRuns.DirtyMoveDefeatsTheGuard`). Trash `/a` inside the cycle: then neither row can be restored, because the cursor walk of a restore ends if and only if no trashed row above the target lies above itself (`Trash.ChainEndsIff`, `TreeRuns.TrashedCycleIsStuck`).
- *The guard of a move is read before its transaction.* Two moves at once, each into the subtree of the other, both pass it; when one has committed, the rebuild of the other never ends (`TreeRuns.RacingMovesNeverEnd`; `Ancestry.LoopFreeIff` gives the exact condition, whatever the table and the guard).
- *Rows created under a trashed folder are lost.* No check of the create, upload and move paths looks at `deleted_at` of the parent. Emptying the trash then removes the live row, and the retention purge removes rows trashed inside the window (`TreeRuns.CreatedUnderTrashIsLost`). Over any closure, a purge loses no live row, and stays outside the window, exactly under the conditions of `Trash.PurgeSafeIff` and `Trash.PurgeInsideWindowIff`; emptying the trash leaves no trashed row exactly when the closure still knows all topmost trashed rows and loops (`Trash.EmptiedTrashIff`).
- *Restores of clashing siblings fail.* `restoreNode` hands the claimed names over as a Set, but `resolveRestoreName` reads them only from an array. A restore is refused by the live-name index, and rolled back, if and only if two restored siblings get the same final name (`Trash.RestoreVerdict`; a case is `TreeRuns.TwinsCannotBeRestored`).
- *A failed prepare leaves the new node.* `prepareUpload` runs outside the `try` of `uploadFile`, against the comment above it; the outcome predicate of `Uploads.UploadService.UploadFile` says so.
- *Rollback of an overwrite that began without an active row* sets the status to active with nothing reactivated (`UploadStates.RollbackNeedsActiveStart`, `UploadStates.RollbackWithoutVersion`).
- *Restore-previous takes the newest managed version*, which is the version that was active only when no managed version was newer; a version restore makes that false (`UploadStates.RepairRestoresPreviousIff`, `UploadStates.RepairRestoresAnother`).
- *Repair does not look at the node type.* Directories wait in pending_upload for ever; the scan leaves them out, but an auto repair of one deletes its whole subtree (`FailSafe.DirectoryRepairTakesSubtree`). With evicted versions only it activates one even if its blob is gone (`FailSafe.FailSafeService.RestoreLastGood`).
- *Completed repairs take the content type from the bucket*, to which uploads send none, so the cache row of a completed upload has the type the bucket falls back to (`FailSafe.FailSafeService.CompletePending`).
- *Purges delete blobs before rows.* When the row delete of a root fails, or the process stops in between, the rows are still there and their blobs gone: of the rows left, exactly those a root lists (`TrashServices.TrashService.PurgeRoots`). `restoreNode` does not probe the blob in s3 mode, so the file comes back in status active and cannot be downloaded (`BlobLosses.FailedPurgeLosesAFile`). In a timely run a node lacks the blob of a version exactly when a purge has begun on it and not finished (`BlobSafety.VersionLostIff`).
- *Tier 1 and repairs act on stale reads.* Selecting a pending row of an upload in progress, which takes an upload that runs for longer than the stale cutoff, or one that a repair has probed and not yet activated, and probing a row already selected, all end in an active file without blob or without row (`BlobLosses.RepairOvertaken`, `BlobLosses.UntimelyIsReachable`). The invariant survives a step if and only if the step avoids these three and the restore of a node, or the end of a purge of a live node, after a purge deleted a version's blob (`BlobSafety.StepKeepsInvIff`); after each such step a file is lost, or a few more steps lose one (`BlobLosses.UntimelyLosesAFile`). Tier 2 needs no such care (`Tier2Safety.Tier2NeverTakesReferenced`).
- *Undo does not check names.* The inverses of a rename and of an archive run without looking for the name; when another active collection of the owner has taken it, the unique index fails the undo, and the cascades through it (`JournalReplay.UndoRewindsIff`, `JournalReplay.RenamedAwayCannotBeUndone`). The same goes for items of purged nodes.
- *A batch add of nodes that are all members already* records an empty item list and an inverse no executor knows; until that row expires nothing of the collection up to it can be undone, even with a cascade (`JournalRuns.NoOpBatchBlocksUndo`). Other commands lose something on undo: `lockName`, who pinned, the unpublished state of a removed item (`CollectionUndo.UndoLosses`). `CollectionUndo.UndoExactIff` gives the exact condition command by command.
- *Bulk configuration reads are stamped after the read*, so their answers can be older than the time to live by the latency of the read; the bound is reached (`ConfigRuns.BulkBoundIsReached`).
- *The dotenv writer* does not read back a value containing U+2028 or U+2029, and loses a carriage return that precedes a newline (`EnvFileLaws.SeparatorIsLost`, `EnvFileLaws.ReturnIsLost`).
- *Expiry without a cutoff* in the sqlite repository compares a number with a text, so every applied row expires; `Journal.ActionJournalStore.ExpireRows` says so.

## Model

| member | source | states |
|---|---|---|
| Tree.ExactIsAcyclic | server/store/postgresql/ddl/001_initial_normalized_schema.sql:85-90 | The primary key of the closure alone excludes pointer cycles: an exact closure exists only over acyclic pointers. |
| Tree.ExactMember | server/store/repositories/sqlite/FileNodeRepository.sqlite.js:289-299 | With an exact closure the descendant query returns exactly the subtree, the node and its trashed rows included. |
| Tree.ReparentAcyclic | server/service/fileNodeService.js:52-62 | Changing a parent pointer keeps the pointers acyclic if and only if the new parent does not lie in the moved subtree, so the refusal is neither too weak nor too strong. |
| Tree.ReparentInside | server/service/_ancestryHelper.js:50-76 | Walks inside the moved subtree run to the moved node as before and then on from the new parent. |
| Paths.SegmentsOfDisplayPath | server/service/fileNodeService.js:101-105 | Splitting a display path gives back the names it was joined from, for non-empty slash-free names. |
| Paths.SegmentsAtSlash | server/service/fileNodeService.js:104-105 | A slash separates segments wherever it stands, and slashes in a row or at the ends add none. |
| Paths.LiveNamedUnique | server/store/postgresql/ddl/001_initial_normalized_schema.sql:59-60 | Under the live-only unique indexes a list of segments names at most one node. |
| Ancestry.CreateNameTakenIff | server/store/postgresql/ddl/001_initial_normalized_schema.sql:59-60 | The name check of a create refuses exactly when the new row would break the live-only unique indexes. |
| Ancestry.UpdateNameTakenIff | server/store/postgresql/ddl/001_initial_normalized_schema.sql:59-60 | The name check of a move or rename refuses exactly when the updated row would break the live-only unique indexes, so a trashed namesake never stands in the way. |
| FileNodes.FileNodeService.GetAncestorChain | server/store/repositories/sqlite/FileNodeRepository.sqlite.js:315-328 | The chain lists each closure row of the node once, deepest ancestor first, the node itself included. |
| FileNodes.FileNodeService.InsertAncestorRows | server/store/repositories/sqlite/FileNodeRepository.sqlite.js:258-273 | The batch goes in exactly when no row lacks a node and no primary key is taken or repeated; a refused batch leaves the closure as it was. |
| FileNodes.FileNodeService.BuildAncestorsForNode | server/service/_ancestryHelper.js:14-34 | Over any closure the new leaf gets its own row and the rows of its parent one step further, and they never collide. |
| FileNodes.FileNodeService.RebuildAncestorsAfterMove | server/service/_ancestryHelper.js:40-81 | Over any closure, while no live row leads back to the moved node, the queue ends; its rows are those of the live rows reached, up to the moved node and then along the rows of the new parent; the batch goes in unless a primary key is taken, and then nothing does. |
| FileNodes.FileNodeService.CreateNode | server/service/fileNodeService.js:24-38 | In any state of the tables: refused for a missing parent, or for its name exactly when the table with the new row would break the unique indexes; otherwise the table is the old one with the live leaf under the next id, also under a trashed parent, and an exact closure stays exact. |
| FileNodes.FileNodeService.MoveNode | server/service/fileNodeService.js:52-62 | Refused as a cycle exactly when the closure knows the destination as a descendant, and for its name exactly when the table with the changed pointer would break the unique indexes; any refusal, a colliding batch included, changes nothing; otherwise that pointer alone changes, and an exact closure stays exact if and only if nothing strictly below is trashed. |
| FileNodes.FileNodeService.RenameNode | server/service/fileNodeService.js:44-46 | Renames exactly when the table with the new name satisfies the unique indexes, so a trashed row takes any name; otherwise nothing changes. |
| FileNodes.FileNodeService.DeleteNode | server/service/fileNodeService.js:68-74 | The descendants the closure knows go, with all below them by cascade and every closure row that mentions one; with an exact closure that is exactly the subtree, and the closure stays exact. |
| FileNodes.FileNodeService.UntrashSubtree | server/store/repositories/sqlite/FileNodeRepository.sqlite.js:145-157 | All given rows become live or, when that would repeat a live sibling name, none does. |
| FileNodes.FileNodeService.GetNodePath | server/service/fileNodeService.js:92-102 | The path spells as much of the parent walk as the closure knows, all of it when the closure is exact, also for trashed rows. |
| FileNodes.FileNodeService.ResolvePath | server/service/fileNodeService.js:104-116 | A path resolves to a node if and only if the node is live under live ancestors and the segments are its names from the root. |
| TreeSteps.MoveExactIff | server/service/_ancestryHelper.js:40-81 | After a move the closure is exact if and only if no trashed row lies strictly below the moved node. |
| TreeSteps.MoveKeepsTruth | server/service/_ancestryHelper.js:40-81 | A move over any true closure leaves only true rows without gaps, however many rows were lost before. |
| FileNodes.ChainShape | server/store/repositories/sqlite/FileNodeRepository.sqlite.js:315-328 | Over true rows without gaps a chain runs down to the node with one entry a depth, as far up as the closure knows. |
| FileNodes.PathRoundTripIff | server/service/fileNodeService.js:92-116 | Resolving the display path of a node finds it if and only if it and all its ancestors are live, and then no other node. |
| Ancestry.QueueIteration | server/service/_ancestryHelper.js:53-76 | Each turn of the rebuild queue visits a new node and queues only new nodes with their right chains. |
| Ancestry.LoopFreeIff | server/service/_ancestryHelper.js:41-76 | After any pointer change in any table, cyclic ones included, the rebuild queue drains if and only if the change does not hang the node, live, below itself along live rows. |
| TreeSteps.DeleteKeepsExact | server/service/fileNodeService.js:68-74 | With an exact closure exactly the subtree goes and the closure stays exact. |
| RestoreName.CandidateInjective | server/service/trashService.js:102-107 | Different counters give different candidate names, for any name and extension. |
| RestoreName.CandidateKeepsExtension | server/service/trashService.js:102-106 | The text from the last dot on stays at the end of a candidate and the number stands before it. |
| RestoreName.CandidateWithoutExtension | server/service/trashService.js:102-106 | A name without a dot, with one at the start alone, or `..` gets the number at its end. |
| Numerals.DecimalIsCanonical | server/service/trashService.js:104-106 | Counters are printed as decimal digits without leading zero. |
| RestoreName.CounterBound | server/service/trashService.js:104-107 | By pigeonhole the counter never exceeds the number of taken names plus one. |
| RestoreName.FirstFreeUnique | server/service/trashService.js:95-108 | The first free name is determined by the taken names. |
| RestoreName.ResolveRestoreName | server/service/trashService.js:95-108 | Ends, and returns the name itself when free, otherwise the first free candidate, looking at claimed names only when they come as an array. |
| Trash.TrashKeepsInv | server/domains/files/services/fileService.js:411-466 | Stamping a live node and its closure subtree keeps all invariants, with everything below a trashed row trashed with its stamp. |
| Trash.StampedOnExact | server/domains/files/services/fileService.js:411-466 | With an exact closure exactly the subtree carries the stamp and every other row is as it was. |
| Trash.CoRestoredSiblings | server/service/trashService.js:126-176 | Restored rows that share a parent all lie strictly below the target under a trashed parent, so only there can names clash. |
| Trash.RestoreVerdict | server/service/trashService.js:115-257 | In any table the live-name indexes accept the restore if and only if no two restored siblings get the same final name. |
| Trash.RestoredOnClosed | server/service/trashService.js:115-257 | With the trash closed below, live afterwards are exactly the rows live before, the subtree of the target and its ancestors. |
| Trash.ChainEndsIff | server/service/trashService.js:124-133 | For a trashed target in any table: the cursor walk reaches a topmost trashed row if and only if no trashed row in a row above the target lies above itself. |
| Trash.ClashOnClosed | server/service/trashService.js:115-257 | With the trash closed below, a restore clashes if and only if two rows strictly below the target share parent and name. |
| Trash.PurgeKeepsExact | server/service/trashService.js:272-329 | Purging any roots of a table with an exact closure leaves an exact closure. |
| Trash.PurgeAnother | server/service/trashService.js:377-392 | Over true rows, purging roots one after another removes what purging them at once removes. |
| Trash.EmptiedTrashIff | server/service/trashService.js:377-392 | Over any closure, purging every trash root leaves no trashed row if and only if every topmost trashed row, and every row on a loop of trashed rows, is or lies below a row the closure lists under a trash root; with an exact closure that always holds. |
| Trash.GoneOnExact | server/service/trashService.js:272-329 | With an exact closure a purge takes exactly the subtrees of its roots. |
| Trash.PurgedOnClosed | server/service/trashService.js:377-392 | With all invariants, purging the topmost trashed rows removes exactly the trashed rows, or with a cutoff exactly those stamped before it. |
| Trash.PurgeSafeIff | server/service/trashService.js:377-392 | Over any closure a purge of any rows loses no live row if and only if the closure lists no live row under a root and no live row sits directly under a trashed row that goes; with an exact closure and trashed roots: no live row below them sits directly under a trashed one. |
| Trash.EmptyTrashSafeIff | server/service/trashService.js:377-392 | The same for emptying the whole trash; with an exact closure it loses no live row if and only if no live row has a trashed parent. |
| Trash.PurgeInsideWindowIff | server/service/gcService.js:282-324 | Over any closure a purge takes only expired rows if and only if the closure lists only such rows under the roots and every child of an expired row that goes is expired; with an exact closure and expired roots: below them every child of an expired row is expired. |
| Trash.ClosedTrashIsSafe | server/service/trashService.js:377-392 | On a table whose trash is closed below both conditions hold. |
| Trash.UnknownRowStays | server/store/repositories/sqlite/FileNodeRepository.sqlite.js:289-299 | A row that the closure has lost survives every purge as long as its parent does. |
| TrashServices.TrashService.TrashNode | server/domains/files/services/fileService.js:411-466 | A live node and the descendants its closure rows name are stamped, those trashed earlier as well, with an exact closure the subtree and nothing else; anything else is refused unchanged. |
| TrashServices.TrashService.TrashedChain | server/service/trashService.js:124-133 | Where a topmost trashed row lies above the target, the cursor walk ends and lists exactly the ancestors trashed without interruption above it. |
| TrashServices.TrashService.TrashedDescendants | server/service/trashService.js:166-176 | Unless the target lies below itself, the breadth-first queue ends and lists exactly what is trashed without interruption below it. |
| TrashServices.TrashService.PlanRenames | server/service/trashService.js:178-230 | Every restored row gets the first name free among the live siblings, and a rename is planned only where that differs from its own. |
| TrashServices.TrashService.CommitRestore | server/service/trashService.js:235-240 | Renames and untrash together happen or leave the table as it was, and which of both is decided by the sibling clash. |
| TrashServices.TrashService.RestoreNode | server/service/trashService.js:115-257 | Where the cursor walk ends, exactly the trashed rows above and below the target in a row become live, each under its own name when no live sibling had it and else under the first free candidate; with the trash closed below, the live rows are those of before, the subtree and the ancestors; or nothing changes: missing, not trashed, or clashing names. |
| TrashServices.TrashService.PurgeNode | server/service/trashService.js:272-329 | Blobs of all rows the closure lists go first; a missing node or a failing delete transaction leaves the tables as they were, and in the second case the blobs are gone all the same. |
| TrashServices.TrashService.PurgeRoots | server/service/trashService.js:272-392 | In any state of the tables, after best-effort purges, what is gone is what the deletes of the roots that did not fail take; of the object rows left, exactly those a root lists, a failed one then, have lost their blob unless its own delete failed, and no other blob is gone. |
| TrashServices.TrashService.EmptyTrash | server/service/trashService.js:377-392 | In any state of the tables exactly what the deletes of the topmost trashed rows that did not fail take is gone, the blobs as for `PurgeRoots`; with all invariants and no failure exactly the trashed rows. When it costs a live row is said by `Trash.EmptyTrashSafeIff`. |
| TrashServices.TrashService.RunTier3 | server/service/gcService.js:282-324 | In any state of the tables the same for the roots trashed before the retention window; with all invariants and no failure exactly the rows stamped before now minus the retention days go; retention zero skips. |
| TreeRuns.MoveInvIff | server/service/fileNodeService.js:52-62 | A move keeps every invariant if and only if nothing strictly below is trashed and a trashed destination carries the same stamp. |
| TreeRuns.StepKeepsInvIff | server/service/fileNodeService.js:24-74 | From an exact closure with the trash closed below, an operation leads to such a state again if and only if it is no create under a trashed row, and no move of a trashed row below the moved node or to a trashed parent of another stamp. |
| TreeRuns.RunsKeepStore | server/service/fileNodeService.js:24-74 | In every state of every run of creates, renames, moves, deletes, trashings, restores and purges, whatever the callers do, the constraints hold and closure rows are true walks without gaps. |
| TreeRuns.RunsKeepTreeInv | server/service/fileNodeService.js:24-74 | As long as every operation of a run was of that kind, the closure is exact, the pointers acyclic, live sibling names distinct and the trash closed below. |
| TreeRuns.DirtyMoveDefeatsTheGuard | server/service/_ancestryHelper.js:41-65 | Trash a child and move its parent: the closure loses the child, the guard lets a move into it commit a pointer cycle, and no purge removes it; when it is restored first, that move never ends. |
| TreeRuns.TrashedCycleIsStuck | server/service/trashService.js:124-133 | Trash a row inside that cycle: both rows are trashed, a restore of either never ends, and there is no topmost trashed row to purge. |
| TreeRuns.RacingMovesNeverEnd | server/service/fileNodeService.js:52-62 | From an intact state two moves into each other both pass the guard; after one has committed the rebuild of the other never ends. |
| TreeRuns.CreatedUnderTrashIsLost | server/domains/files/routes/folders.js:58-78 | Trash a folder and create a row under it: emptying the trash takes the live row, and a purge of what was trashed before the window takes a row trashed inside it. |
| TreeRuns.TwinsCannotBeRestored | server/service/trashService.js:178-230 | A folder with a trashed row and its namesake, trashed as a whole, cannot be restored. |
| KeptKeys.WalkNamesIsNamesUp | server/store/fileNodesStore.js:91-101 | On acyclic pointers the guarded pointer walk spells the same names as the closure-based path. |
| KeptKeys.DisplayPathOf | server/store/fileNodesStore.js:91-101 | The walk ends on any table, cyclic ones included, and returns the joined names. |
| KeptKeys.AddDirPrefixes | server/store/fileNodesStore.js:112-117 | Adds exactly the directory prefixes of the path. |
| KeptKeys.GetKeptKeys | server/store/fileNodesStore.js:85-128 | The kept set is exactly the structural directories and the keys some row vouches for; what these are for a live file, a live directory, a trashed row and a row in orphaned_node is said by the `Safe` lemmas below, and that they are no more by `GcWebdav.ResidueTaken` and `GcWebdav.TopLevelTakenIff`. |
| KeptKeys.KeptAncestorClosed | server/store/fileNodesStore.js:106-128 | Every directory above a kept key is kept, for any table and any names. |
| GcWebdav.IsUnderKeptDirectory | server/service/gcService.js:233-242 | True exactly when a kept, non-structural directory is a proper prefix of the key. |
| GcWebdav.CollectionsAreRecursive | server/service/gcService.js:229-232 | The delete of a key with a final slash takes all below it, that of a bare key nothing below it. |
| GcWebdav.RecursiveDeleteSafe | server/service/gcService.js:229-270 | Nothing that deleting a selected key takes with it is kept or lies under a kept non-structural directory. |
| GcWebdav.TrashCollectionSafe | server/store/fileNodesStore.js:118-125 | No selected key takes `/.wea-trash/` with the number of a trashed row, as a bare key or as a collection with anything inside. |
| GcWebdav.KeptDirectorySafe | server/service/gcService.js:229-270 | A kept directory and everything inside it survive every delete of a selected key. |
| GcWebdav.TmpSnapshotSafe | server/store/fileNodesStore.js:122-125 | No selected key takes `/.wea-tmp/` with the number of a row that is trashed or in orphaned_node, bare or as a collection with anything inside. |
| GcWebdav.ResidueTaken | server/store/fileNodesStore.js:118-125 | A tmp or trash entry whose row is gone or no longer needs it is selected, unless a live row is displayed inside the structural directory. |
| GcWebdav.TopLevelTakenIff | server/store/fileNodesStore.js:106-117 | A bare key at the top level is selected if and only if no live file is displayed there. |
| GcWebdav.InsideIsDeeper | server/service/gcService.js:257-260 | A key strictly inside a directory ranks deeper than it, whatever trailing slashes either has. |
| GcWebdav.SortByDepth | server/service/gcService.js:261-261 | The order is a permutation of the keys, deepest first. |
| GcWebdav.ChildrenBeforeDirectory | server/service/gcService.js:257-261 | In the sorted list everything strictly inside a directory comes before the directory. |
| GcWebdav.WebdavGcService.RunTier2 | server/service/gcService.js:194-273 | The counters are the numbers of listed, untracked, deleted and failed keys, and exactly what the successful deletes cover is gone. |
| GcWebdav.Tier2KeepsKept | server/service/gcService.js:194-273 | With the kept set of the database no pass removes a kept key or anything under a kept directory. |
| GcWebdav.LiveFileSafe | server/service/gcService.js:194-273 | The display path of a live file is never taken. |
| GcWebdav.LiveDirectorySafe | server/store/fileNodesStore.js:109-111 | The display path of a live directory with its final slash, empty directories included, and everything below it is never taken. |
| ObjectMap.NextVersion | server/store/repositories/sqlite/FileNodeRepository.sqlite.js:357-384 | A new version number is one above the highest version of the node, history and orphans included, or 1 without any. |
| ObjectMap.EvictOldestFirst | server/store/repositories/sqlite/FileNodeRepository.sqlite.js:386-414 | A version older than an evicted one is evicted too. |
| ObjectMap.EvictLeavesCap | server/store/repositories/sqlite/FileNodeRepository.sqlite.js:386-414 | With nothing active the cap leaves exactly min(cap, all) managed versions, and a cap of zero all of them. |
| ObjectMap.EvictKeepsNewest | server/store/repositories/sqlite/FileNodeRepository.sqlite.js:386-414 | Whatever the cap, the newest managed version survives. |
| UploadStates.BeginKeepsInv | server/service/uploadService.js:184-188 | TX1 keeps unique keys and versions, one active and one pending row a node, and a managed version behind every evicted one. |
| UploadStates.CompleteCommits | server/service/uploadService.js:195-198 | TX2 after TX1 gives the committed state: new active row, old one demoted, cache sized, all else as before but for evictions. |
| UploadStates.RollbackRestores | server/service/uploadService.js:127-141 | The rollback transaction gives back the state before the overwrite, apart from versions evicted by the cap. |
| UploadStates.RollbackNeedsActiveStart | server/service/uploadService.js:127-141 | After a rollback the node, now in status active, has an active row if and only if it had one before. |
| UploadStates.RollbackWithoutVersion | server/service/uploadService.js:127-141 | A file stuck since its first upload and overwritten in vain is left in status active with no version. |
| UploadStates.RepairRestoresPreviousIff | server/service/failSafeService.js:252-259 | The version a repair would restore is the one active before the overwrite if and only if no managed version was newer. |
| UploadStates.RepairRestoresAnother | server/service/failSafeService.js:252-259 | After an older version was restored, the repair of a stuck overwrite would bring back the newer one. |
| Uploads.Storage.CompleteUpload | server/service/blobStorageService.js:57-67 | Throws unless a pending or active row has the key; otherwise activates it and writes the cache row. |
| Uploads.UploadService.RollbackOverwrite | server/service/uploadService.js:127-161 | From any state each guarded step runs alone: a failed transaction skips neither the delete of the new blob nor the cache write. |
| Uploads.UploadService.OverwriteFile | server/service/uploadService.js:177-223 | From any state of the node and for every failure point the rows, statuses and cache rows are said one by one: after success the one new row with version, size and time, the node active, every earlier version managed or evicted; no blob but the new one is touched; from an active file, one of the four outcomes of `Uploads.OverwriteFromActive`. |
| Uploads.OverwriteFromActive | server/service/uploadService.js:177-223 | From an active file an overwrite keeps every invariant, takes no blob of a version of any node, and is committed, or changes nothing, or gives back the pre-state up to evictions, or leaves the node waiting with its last good row and blob. |
| Uploads.RowsAfterOverwrite | server/service/uploadService.js:177-223 | From any state: what was active or managed is managed or evicted after success and after a failed rollback; a rollback gives the active row back, removes the new one and sets the node active; rows of other nodes stay. |
| Uploads.UploadService.UploadFile | server/service/uploadService.js:68-112 | For every failure point: committed, or nothing, or, when prepare or the cleanup fails, the new node left waiting. After success the tables are the old ones with one active row of version 1 and the size of the content, the node active, and its cache row with size, type and, if the enrichment write went through, hash. |
| FailSafe.FailSafeService.RestoreLastGood | server/service/failSafeService.js:314-334 | The newest managed version, or without one the newest evicted version, is active again and the pending row gone, or nothing changed; a node that had all blobs of its versions lacks one afterwards exactly when the evicted version had lost its own. |
| FailSafe.FailSafeService.CompletePending | server/service/failSafeService.js:281-304 | The pending row becomes active with the size in the bucket, or the error and an unchanged database. |
| FailSafe.FailSafeService.RepairPendingUploadNode | server/service/failSafeService.js:226-359 | A trashed node is not found. For any live waiting node, directories and nodes with evicted versions only included: when no call fails, complete resolves exactly with a blob under the pending row, restore-previous exactly with a managed or evicted version, delete and auto always; a resolved node that is still there is active with one active and no pending row, completed ones with the size and type in the bucket; auto goes by a rule on rows and bucket alone; which blobs go is exact; errors change no row. |
| FailSafe.DirectoryRepairTakesSubtree | server/service/failSafeService.js:226-359 | Auto repair of a directory removes everything the closure lists under it, healthy files included. |
| FailSafe.RepairKeepsBlobs | server/service/failSafeService.js:226-359 | Where every waiting node with evicted versions has a managed one too, no repair makes a version active whose blob is gone. |
| Gc.GuardedKept | server/service/gcService.js:151-158 | On a guarded node only pending rows can disappear, so a later repair finds the same last good row, managed or evicted. |
| Gc.S3GcService.Classify | server/service/gcService.js:151-158 | Deletable are exactly the orphaned rows older than the orphan cutoff whose node is gone, or which are older than the version cutoff and whose node does not wait without an active row; the counts are those of the old orphaned rows and of the guarded ones among them. |
| Gc.S3GcService.RunTier1 | server/service/gcService.js:125-188 | By status and age alone: active and managed rows, pending rows not older than the stale cutoff or with that cleanup off, and orphaned rows not older than both cutoffs or of waiting nodes stay with their blobs; every other row is gone unless its delete failed, and its blob unless that delete failed. The invariants stay, no version loses its blob, restore-previous finds on guarded nodes the row it would have found before, and the counts are exact. |
| Gc.EveryRowKept | server/store/repositories/sqlite/FileNodeRepository.sqlite.js:571-589 | Under the invariants the kept-key query misses no row at all. |
| Gc.S3GcService.RunTier2 | server/service/gcService.js:194-273 | One s3 pass deletes exactly the candidates under which no row lies, but for deletes that fail; every other blob stays as it was. |
| BlobSafety.StepKeepsInvIff | server/service/gcService.js:125-188 | With one request a node at a time, a step of any upload, repair, version restore, trash, purge or collector keeps the system invariant if and only if it is timely: Tier 1 selects no pending row an upload or a probed repair counts on, no repair probes a selected row, and no node is restored, and no purge of a live node stops, after a purge deleted the blob of a version and left the rows. |
| BlobLosses.UntimelyLosesAFile | server/service/gcService.js:160-185 | After any untimely step a live file lacks a version's blob, or a few further steps end with one in status active without blob or without row. |
| BlobLosses.UntimelyIsReachable | server/service/gcService.js:160-185 | An untimely step is enabled two steps from the empty system, once the pending row of a running upload is older than the stale cutoff. |
| BlobLosses.RepairOvertaken | server/service/failSafeService.js:266-304 | A run: the repair of a stuck upload probes the blob, Tier 1 deletes blob and row, the repair commits, and the node is in status active without a row. |
| BlobLosses.FailedPurgeLosesAFile | server/service/trashService.js:316-327 | A run: a purge of a trashed file deletes the blob and stops before the rows, the file is restored, and cannot be downloaded. |
| BlobSafety.RunsKeepSysInv | server/service/uploadService.js:68-223 | As long as every step of a run was timely: at most one active and one pending row a node, each key in one row, active nodes with an active row, and every active or managed version with its blob, but on nodes a purge has begun to take, which are in the trash or still being purged. |
| Tier2Safety.Tier2NeverTakesReferenced | server/service/gcService.js:208-270 | No Tier 2 delete of any run, timely or not, takes the blob of any row, without use of the age cutoff. |
| BlobSafety.ActiveFilesDownloadable | server/service/uploadService.js:68-223 | In every state of every timely run a live file in status active that no purge is working on has exactly one active row, with its blob in the bucket. |
| BlobSafety.VersionLostIff | server/service/trashService.js:272-329 | In every state of every timely run a node lacks the blob of an active or managed version if and only if a purge has deleted one and the rows are still there. |
| BlobProgress.StuckNodeCanLeave | server/service/failSafeService.js:226-359 | In every state of a timely run a live node that waits without a request can leave it in two timely steps, whatever the others do: its last good row is the one active row with its blob there, or it has none and is deleted. |
| BlobProgress.StuckUploadCanComplete | server/service/failSafeService.js:281-304 | A stuck node whose pending blob is there, and not selected by Tier 1, can be completed in two steps: that row is the one active version with the size in the bucket. |
| BlobProgress.ActiveFileCanBeOverwritten | server/service/uploadService.js:177-188 | In every such state a live active file without a request can be overwritten, and then has its last good version to fall back to. |
| Collections.RunAddItems | server/store/collectionsStore.js:547-592 | The batch records inverses for exactly the nodes not stored, reports stored ones and counts a repeated id once; it fails as a whole exactly when a node to insert does not exist. |
| Collections.RunRemoveItems | server/store/collectionsStore.js:601-650 | Removed and excluded lists hold exactly the ids that changed something, once each, and a system collection is auto-pinned; it fails exactly when a node to exclude does not exist. |
| Collections.ApplyCollectionInverse | server/domains/actions/service.js:395-433 | Item lists apply item by item with skips, atomic lists all or nothing, single inverses or a refusal; a statement that would repeat an active name of the owner or refer to a purged node fails the whole. |
| CollectionEffects.EffectOfDo | server/store/collectionsStore.js:193-313 | Field by field: the last listed role that differs from the one before wins, without one a revoked user has no grant and any other keeps theirs; a differing name is taken and locked; new members carry the flag of the command and old ones keep theirs; an explicit unpin persists and any other touch pins an unpinned system collection. |
| CollectionEffects.EffectIsDo | server/store/collectionsStore.js:193-313 | The effect fixes the state after the command: no other state has it. |
| CollectionEffects.RefusedIffEffectBreaks | server/store/postgresql/ddl/001_initial_normalized_schema.sql:202-225 | A command is refused if and only if its effect would repeat an active name of the owner or refer to a node that does not exist. |
| CollectionEffects.ItemsRefusedIff | server/domains/actions/service.js:395-433 | A list applied item by item meets a constraint exactly when some item would leave a taken name active or a missing node referred to. |
| CollectionEffects.AtomicRefusedIff | server/domains/actions/service.js:395-433 | The same for an atomic list, as far as it applies. |
| CollectionEffects.UnjournaledIff | server/store/collectionsStore.js:269-269 | A command writes no journal row exactly when it is a properties patch that repeats name, pin, mode and roles and revokes nobody. |
| CollectionEffects.AddItemsCounted | server/domains/actions/service.js:395-433 | Right after a batch add its undo reports each new member once as undone and every repeated id as skipped. |
| CollectionUndo.AddItemsUndone | server/store/collectionsStore.js:547-592 | The item inverses of a batch add restore the members exactly when at least one id was new, duplicates and present members included. |
| CollectionUndo.RemoveItemsUndone | server/store/collectionsStore.js:601-650 | The item inverses of a batch remove restore members and exclusions exactly when every listed member was stored and published, every exclusion new, and no auto-pin fired. |
| CollectionUndo.PatchUndone | server/store/collectionsStore.js:193-313 | The atomic undo of a properties patch succeeds and is exact if and only if a rename was already locked, a changed pin was a plain one, no auto-pin fired, every revoked user had a grant and no new grantee was listed twice. |
| CollectionUndo.UndoExactIff | server/domains/actions/service.js:260-386 | For every command: executing its recorded inverse gives the collection back if and only if a condition checkable before the command holds. |
| CollectionUndo.UndoLosses | server/store/collectionsStore.js:193-313 | What three undos leave behind: a locked name, a pin by the user in place of an automatic one, a published item. |
| UndoConstraints.UndoLaterIff | server/domains/actions/service.js:260-386 | Undone at any later time, with the constraints of that time and after any purges, a restorable command is taken back exactly, or refused if and only if the name it brings back is taken or a node it is about was purged. |
| UndoConstraints.ExecuteKeepsOk | server/domains/actions/service.js:260-433 | Whatever payload is executed, an accepted result repeats no active name of the owner and refers to existing nodes only. |
| Journal.ActionJournalStore.CommitChange | server/store/actionJournalStore.js:52-84 | The collection has exactly the effect of the command, all others stay, and one applied row with the next id, the next number of its chain and thirty days to live is added; or neither happens when a statement meets the unique active names or a foreign key; a patch that changes nothing, and nothing else, writes no row. |
| Journal.ActionJournalStore.UndoAction | server/store/actionJournalStore.js:93-146 | Guards in order, then all inverses newest first and the status flips in one transaction; one refusal, by the executor or by a constraint, leaves everything as it was. |
| Journal.AppliedFrom | server/store/repositories/sqlite/ActionJournalRepository.sqlite.js:78-86 | Lists exactly the applied rows of the subject from a chain number on. |
| JournalRuns.ListedNewestFirst | server/store/repositories/sqlite/ActionJournalRepository.sqlite.js:78-86 | The cascade list is in strictly falling chain order in every reachable journal. |
| Journal.ActionJournalStore.ExpireRows | server/store/repositories/sqlite/ActionJournalRepository.sqlite.js:162-178 | Row by row: an applied row that expires before the cutoff keeps its number and subject but loses its payload, every other row stays the same; afterwards none is due, and for sqlite without cutoff none applied. |
| JournalRuns.PlainUndoRefusedIff | server/store/actionJournalStore.js:106-109 | A plain undo of an applied row asks for a cascade if and only if a later row of the subject is applied. |
| JournalRuns.UndoGuards | server/store/actionJournalStore.js:98-112 | By the row alone: undone and expired rows are refused as such, an applied one asks for a cascade with the number of later applied rows of its subject, and refusals change nothing. |
| JournalRuns.ExecutedCounts | server/store/actionJournalStore.js:116-146 | An undo counts every stored inverse of its targets once, as undone or as skipped. |
| JournalRuns.RetainedUntilExpiry | server/store/actionJournalStore.js:18-71 | In every run with scheduled expiry alone a row keeps its inverse until its thirty days are over. |
| JournalRuns.RunsKeepChain | server/store/actionJournalStore.js:52-84 | In every run chain numbers of a subject grow strictly and no expired row follows an applied one. |
| JournalRuns.RunsKeepConstraints | server/store/postgresql/ddl/001_initial_normalized_schema.sql:202-225 | In every run the active names of an owner are unique and items and exclusions refer to existing nodes. |
| JournalRuns.ClosedForGood | server/store/actionJournalStore.js:101-104 | A row once undone or expired is never touched again, so none is undone twice. |
| JournalReplay.UndoRewindsIff | server/store/actionJournalStore.js:93-146 | When each change was restorable, an undo of the newest change or with cascade succeeds if and only if no name it brings back is taken by another active collection of the owner and no node it needs was purged; it then marks exactly the applied rows from the target on and leaves the state before the target less the purged nodes, and otherwise changes nothing. |
| JournalReplay.RunsReplay | server/store/actionJournalStore.js:52-146 | In every run of restorable commands, undos, cascades, constraint refusals, expiry and node purges the state of each subject is the replay, in chain order, of its rows not undone, less the purged nodes. |
| JournalReplay.CommitThenUndoIff | server/store/actionJournalStore.js:52-146 | A command that commits and is undone at once gives the state back if and only if it was restorable. |
| JournalReplay.RenamedAwayCannotBeUndone | server/store/postgresql/ddl/001_initial_normalized_schema.sql:202-203 | Two renames, each restorable, after which the undo of the first throws because the second holds its old name. |
| JournalRuns.RefusedTipBlocks | server/store/actionJournalStore.js:120-133 | When the executor refuses the newest change no change of the subject can be undone in that state, cascade or not. |
| JournalRuns.UnexecutableBlocks | server/domains/actions/service.js:395-433 | While a row with an empty list and an inverse no executor knows is applied, no change of the subject up to it can be undone. |
| JournalRuns.NoOpBatchBlocksUndo | server/store/collectionsStore.js:570-576 | A batch add of present members alone records such a row; in every later state of the run, until it expires, nothing of the subject up to it can be undone. |
| ConfigResolvers.ConfigResolver.InvalidateCache | server/infrastructure/configResolver.js:138-145 | Exactly the listed keys, or all, are dropped. |
| ConfigResolvers.ConfigResolver.LoadRows | server/infrastructure/configResolver.js:165-171 | Every row read is cached with the stamp taken after the read; other entries stay. |
| ConfigResolvers.ConfigResolver.PopulateT1Env | server/infrastructure/configResolver.js:216-237 | Exactly the boot-frozen keys absent from env, not database-only, with a cached row or a default are copied, with that value; operator values stay, and no answer or reported source of the resolver changes. |
| ConfigRuns.AnswersFresh | server/infrastructure/configResolver.js:59-87 | With bulk reads no slower than a lag, a cached answer was in the store less than time to live plus lag ago, and an answer read through was there during the call, wherever invalidations land. |
| ConfigRuns.AnswersFollowPrecedence | server/infrastructure/configResolver.js:73-87 | In every run, whatever is written meanwhile: an operator-set key answers the environment value, a bootstrap key else nothing, and any other key a value its row held within the bound of staleness, or the default where the row was missing within it. |
| ConfigRuns.SingleReadsFresh | server/infrastructure/configResolver.js:59-71 | Without bulk reads the bound is the time to live. |
| ConfigRuns.BulkFillHonestIff | server/infrastructure/configResolver.js:89-94 | A bulk fill keeps the bound of the time to live if and only if each of its rows still held its value at the fill. |
| ConfigRuns.BulkBoundIsReached | server/infrastructure/configResolver.js:165-171 | For every time to live and latency a run reaches the weaker bound. |
| EnvFile.EnvFileWriter.ValidateEntries | server/infrastructure/envFileWriter.js:40-54 | Accepts exactly allowed keys with values without newline or carriage return, and names the first offending key otherwise. |
| EnvFile.EnvFileWriter.WriteEnv | server/infrastructure/envFileWriter.js:75-126 | Nothing is touched on a rejected entry, the target is untouched on a disk fault, and otherwise holds the merge. |
| EnvPattern.AssignmentIff | server/infrastructure/envFileWriter.js:38-38 | The parse of a line finds a key and value exactly when the line is spaces, a name, spaces, an equals sign and a value on one line, and there is at most one such reading. |
| EnvPattern.MergedLine | server/infrastructure/envFileWriter.js:88-95 | A line that matches the assignment pattern for an entry becomes name, equals sign and value at its place; a line that matches for none stays. |
| EnvPattern.AppendedInOrder | server/infrastructure/envFileWriter.js:96-103 | After the old lines come the entries no line assigns, each as name, equals sign and value, in their order, and nothing else. |
| EnvFileLaws.AcceptedIsWritable | server/infrastructure/envFileWriter.js:15-54 | Every accepted set of entries can be written: the allowed names match the assignment pattern. |
| EnvFileLaws.ReadMergedIff | server/infrastructure/envFileWriter.js:84-103 | Reading the merged lines gives the old map overridden by the entries if and only if no value holds a line terminator of the pattern. |
| EnvFileLaws.OtherLinesKept | server/infrastructure/envFileWriter.js:88-103 | Lines that assign no entry stay at their place. |
| EnvFileLaws.SplitJoined | server/infrastructure/envFileWriter.js:86-105 | Splitting joined lines gives them back but for a carriage return before a newline. |
| EnvFileLaws.WriteTwiceIff | server/infrastructure/envFileWriter.js:84-108 | Writing twice equals writing once if and only if every value is one line for the pattern and no line of the old file ends in a carriage return that the newline after it swallows. |
| EnvFileLaws.FileReadsBackIff | server/infrastructure/envFileWriter.js:84-108 | The text on disk reads back as the old map overridden by the entries if and only if every value is one line and every line that loses its carriage return then assigns nothing, is overruled by a later line or assigns what is wanted anyway. |
| EnvFileLaws.SeparatorIsLost | server/infrastructure/envFileWriter.js:36-54 | A value with U+2028 is accepted, is not read back, and is written again by the next write. |
| EnvFileLaws.ReturnIsLost | server/infrastructure/envFileWriter.js:84-108 | A write of no entries turns a line hidden by two carriage returns into an assignment. |

## Left out

- WebDAV uploads and overwrites, and the physical moves of a restore: they depend on remote state read with best-effort probes.
- Permission gates of trash, collections and actions: the services are modelled from the point where the caller has passed them.
- Copy, link and shared object keys: object keys are taken as unique across rows, so `ensureExclusiveBlob` and the blob-first flows are not modelled.
- Two overwrites, repairs or purges of one node at the same time: in the run system each node has one request at a time, apart from trashing and restoring it; different nodes and the collector interleave freely. The code does not check it.
- Reads of tree operations before their transaction: in the tree runs the guard of a move, the list of a delete and the plan of a restore are read in the state they commit in. What a guard read too early does is said by `TreeRuns.RacingMovesNeverEnd`.
- Transactions whose commit fails after the database applied them: a transaction either happens or does not.
- Subtrees in the blob system: nodes are files there, so the purge of a subtree is that of its files one by one.
- Overwrites begun on a node already stuck in pending_upload: the run system starts overwrites from active nodes; the method itself is stated for any start.
- Versions evicted before managed versions existed: the run system starts empty, so a waiting node with evicted versions has a managed one; the repair method is stated without that.
- The storage backend column of object rows, ages in the blob system (Tier 1 may select any pending or unguarded orphaned row there), and the order of children by name.
- FileNodes.FileNodeService.MoveNode: for moves whose rebuild never ends it says nothing; `Ancestry.LoopFreeIff` tells which those are.
- TrashServices.TrashService.RestoreNode: for targets whose cursor walk never ends it says nothing; `Trash.ChainEndsIff` tells which those are.
- Restores that race a purge of the same node: a purge does not look at the stamp again, so it takes a node restored after the list of roots was read.
- The blob and row counters and error texts of Tier 1, of s3 Tier 2 and of purges, beside the counts of orphaned and guarded rows.
- Startup recovery, orphaned-node scans and their repair, versions listing and download, quotas, search, statistics.
- Collection creation, merging, permanent deletion, single grants, digest cursors, hidden flags, timestamps, `addedBy`, `source` and `reason` of items, who granted a role, and writes to collections outside the journal such as the auto-pin of a visit.
- Deletion of users, so the foreign keys from grants, items and collections to users always hold.
- The pre-reads of collection commands happen before their transaction in the code; the model reads in the same state the command runs in.
- Journal purge of a deleted collection, subjects resolved after creation, the other journal domains, and feed listing.
- Synchronous configuration reads have no staleness bound, since they ignore the time to live; only the unchanged answers of populateT1Env are stated for them.
- Object entries of the dotenv writer that are not strings, file modes, and the name of the backup file.
- Backend differences: the postgres repositories are modelled only where they answer like the sqlite ones; journal expiry takes the dialect as a parameter.

# Workspace service: a verified model of its file storage

The service keeps users' files on a mounted file system and, beside it, an index that gives the owner
and type of every inode. This project models how the two are kept in step and proves what that
achieves. It has four parts.

1. **The write-ahead protocol and its recovery.** `IntentLog` and `IntentStore` are the journal,
   `NodeStore` the index (the in-memory map and the table with tombstones), `Recorder` the call that
   wraps a write, and `Reconciliation` and `Recovery` the scan that repairs after a crash: the
   functions say what a batch or a pass does for every answer of the storage and the stores, the class
   is the loop, proved against them. `RecoveryRetries`, `RecoveryAccounts`, `RecoveryConvergence`,
   `RecoveryEquivalence` and `RecoveryLoop` hold the results on passes. `WriteProtocol` is a machine over journal, index and tree with any number of writes in
   flight, a scan, crashes and outside changes; `WriteHonesty`, `WriteSafety`, `WriteCrashSafety`,
   `WriteTries` and `WriteOwnership` prove its invariants over every run, and `RecoveryMachine` joins the machine to the passes.
2. **The tree and the recycle bin.** `PosixTree` is an abstract file tree, `Workspace` gives soft
   delete, restore, empty, move, copy and creation on it, `WorkspaceClient` is the client whose methods are
   proved against those functions, and `RecycleBin`, `RecycleRuns`, `TrashAgreement`, `TrashNames`,
   `RecycleIndex`, `MoveTree`, `CopyTree`, `CopyRequests`, `WorkspaceEffects`, `WorkspaceRecords` and
   `AtomicWrite` hold the results.
3. **The index kept by git's file system**: `IdentityFS`, and `IdentityLiveness` on live files.
4. **Paths as text**: `Paths` models package path/filepath on Unix, character by character;
   `PathResolution`, `UserPaths` and `Breadcrumbs` build on it.

What the outside world answers is a parameter everywhere: whether a call of a store or of the file
system works, whether a failed call took effect all the same, which inodes the file system gives out,
in which order a directory is listed, and when a context is cancelled.

Where the repository's comments and its code differ, the model follows the code:

- `internal/domain/file/intent.go:20-22` says that an aborted intent means that the write did not land
  and there is no file. A call by itself leaves an aborted intent with its path there exactly when its
  action failed and had taken effect or found the path there, as every create without overwrite does
  on an existing path (`Recorder.AbortedAndThere`). Recovery aborts existing targets when its tries run
  out. `WriteCrashSafety.AbortedMeansNotLanded` says, over whole runs, what an aborted intent tells of
  its write.
- `cmd/server/main.go:72-75` says that recovery happens before traffic is served. It runs in a
  goroutine, so that the scan never overlaps a write is an assumption; `WriteSafety.OverlapUndoesDone`
  shows what happens without it.
- `internal/usecase/fs/recovery.go:62-63` says that a pass goes on until nothing is pending or a batch
  makes no progress. Lost journal updates count as progress, so a pass may run forever
  (`RecoveryLoop.LostMarksRunForever`); `RecoveryLoop.EndsWhateverHappens` says exactly when it is sure
  to end.
- An overwriting move of a directory onto a directory passes the client's checks, but Go's `os.Rename`
  never replaces a directory: it always fails, after the row was dropped
  (`MoveTree.FailedMoveLosesRow`).

## Model

| member | source | states |
|---|---|---|
| IntentStore.FileIntentStore.Enqueue | internal/infra/persistence/memory/file_intent_store.go:31-48 | The journal gains a pending entry at its end, or, for a known id, replaces that entry in place; a failing durable write changes nothing |
| IntentStore.FileIntentStore.MarkDone | internal/infra/persistence/memory/file_intent_store.go:50-59 | Exactly the entry with the id becomes done, whatever its status was; an unknown id changes nothing |
| IntentStore.FileIntentStore.MarkAborted | internal/infra/persistence/memory/file_intent_store.go:61-71 | Exactly the entry with the id becomes aborted, whatever its status was |
| IntentStore.FileIntentStore.IncrementAttempt | internal/infra/persistence/memory/file_intent_store.go:73-83 | Exactly the entry with the id counts one more attempt |
| IntentStore.FileIntentStore.ListPending | internal/infra/persistence/memory/file_intent_store.go:85-101 | Reading a map in any order and sorting by sequence number gives the pending entries oldest first, cut to a positive limit |
| IntentStore.SortByOrder | internal/infra/persistence/memory/file_intent_store.go:93-96 | The sorted list is strictly increasing in sequence number and has the same elements |
| IntentStore.OrderedUnique | internal/infra/persistence/memory/file_intent_store.go:85-101 | A list in strict sequence order is determined by its elements, so the order of map iteration cannot show |
| IntentLog.ResolveOldest | internal/infra/persistence/memory/file_intent_store.go:50-71 | Resolving the oldest pending intent removes it, and nothing else, from the pending list |
| Recorder.NewIntentIsYoungest | internal/usecase/fs/recorder.go:76-87 | A new intent is appended as the youngest pending one, with what was asked for and no attempt counted |
| Recorder.EnqueuedAgain | internal/infra/persistence/memory/file_intent_store.go:31-48 | An intent enqueued again takes the place of the old one, pending, and no other entry changes |
| Recorder.NodeRecorder.Run | internal/usecase/fs/recorder.go:40-64 | The caller always gets the action's own result; the stores end as RecordedRun says for every answer of the journal and the index, missing stores included |
| Recorder.NodeRecorder.Enqueue | internal/usecase/fs/recorder.go:69-91 | The id of the pending intent is returned only if the journal reported success |
| Recorder.NodeRecorder.Finalize | internal/usecase/fs/recorder.go:93-118 | The row is written and then the intent marked done; an unresolved inode or a failed upsert leaves it pending |
| Recorder.RunAloneIsRecordedRun | internal/usecase/fs/recorder.go:40-118 | The write protocol's machine, taking the steps of one call with nothing in between, does to journal, index and tree what the recorder does |
| Recorder.AbortedAlthoughThere | internal/usecase/fs/recorder.go:54-59 | An error after the storage write took effect leaves the file there and its intent aborted |
| Recorder.AbortedAndThere | internal/usecase/fs/recorder.go:48-64 | With a journal that works a call leaves an aborted intent and its path there exactly when its action failed and had taken effect or found the path there, as every create without overwrite does on an existing path |
| RecoveryMachine.ScanAloneIsReconcile | internal/usecase/fs/recovery.go:124-149 | The machine's scan, taking one listed intent with nothing in between, does what the reconciliation does |
| Recorder.VanishedTargetAborts | internal/usecase/fs/recorder.go:53-59 | A call whose path is gone when it is statted fails after landing and has its intent aborted |
| WriteHonesty.RunKeepsHonest | internal/usecase/fs/recorder.go:40-118 | Invariant of every run of any number of recorded writes, a concurrent scan, crashes and outside changes: every done intent and every call about to mark one done has a witnessing upsert |
| WriteHonesty.DoneImpliesUpsert | internal/usecase/fs/recorder.go:93-118 | In every interleaving a done intent had its actor and node type upserted, successfully, on an inode its path named at some moment of the run |
| WriteSafety.ResolvedForever | internal/infra/persistence/memory/file_intent_store.go:50-71 | When the scan never overlaps a write, an intent that is done or aborted at one point of a run is the same at every later point |
| WriteSafety.OverlapUndoesDone | cmd/server/main.go:72-83 | Without that, a run without outside changes exists in which the scan aborts an intent that was done, with the file and its row there |
| WriteCrashSafety.RunKeepsSafe | internal/usecase/fs/recorder.go:40-118 | Invariant of every run with an exclusive scan in which one path is not deleted after a write landed on it: no landed write to it is lost at any crash point |
| WriteCrashSafety.LandedWritesAreSafe | internal/usecase/fs/recorder.go:48-118 | Every journaled write that took effect on a path not deleted since has an intent that is pending, or done with its upsert applied, or aborted only by an error after the write or by exhausted tries |
| WriteCrashSafety.AbortedMeansNotLanded | internal/usecase/fs/recorder.go:54-59 | Over every such run an aborted intent has a cause, and unless that is exhausted tries, its write took effect exactly when the cause is an error after it |
| WriteTries.ExhaustedWereTried | internal/usecase/fs/recovery.go:153-160 | In every interleaving an intent aborted for exhausted tries has maxTries - 1 attempts counted |
| WriteCrashSafety.RunKeepsIndexed | internal/usecase/fs/recovery.go:124-149 | Invariant of every run in which, from the first landed write on, nothing outside rebinds the path or deletes the row of its inode: what the last write or the scan is about to mark done is recorded |
| WriteCrashSafety.LastDoneHasRow | internal/usecase/fs/recovery.go:124-149 | Once the intent of the last write to such a path is done, the inode the path has now has a row, however many writers raced |
| WriteOwnership.RunKeepsTraced | internal/usecase/fs/recorder.go:93-118 | Invariant of every such run with fresh inodes: the path's inode is no other path's, and its row is what some call for this path records |
| WriteOwnership.LastDoneNamesWriter | internal/usecase/fs/recorder.go:93-118 | Then, once the last write's intent is done, the row of the path's inode names the actor and type of a recorded write to this very path |
| RecoveryMachine.PassAloneIsRecover | internal/usecase/fs/recovery.go:64-149 | The machine, scanning from start to end with nothing in between, does to the stores what Recover says, for every answer of storage and stores |
| RecoveryMachine.CrashThenRecover | internal/usecase/fs/recovery.go:64-149 | After a crash at any point of any run, one pass over a tree that holds still leaves nothing pending, and every such path whose last write was journaled and not aborted has a row for its current inode; with fresh inodes it is that of a write to the path |
| Recovery.Recoverer.RetryOrAbort | internal/usecase/fs/recovery.go:153-160 | An intent with tries left counts one more attempt, otherwise it is aborted |
| Recovery.Recoverer.ReconcileIntent | internal/usecase/fs/recovery.go:124-149 | One reconciliation over the real stores is the function Reconcile, for every answer of the storage and the stores |
| Recovery.Recoverer.ReconcileBatch | internal/usecase/fs/recovery.go:78-96 | The inner loop is Sweep, and it progressed exactly when an intent was resolved or counted so |
| Recovery.Recoverer.RecoverAll | internal/usecase/fs/recovery.go:64-114 | The batched loop terminates and is the function Recover on journal, rows, statistics and end; without journal or inspector it does nothing |
| RecoveryRetries.ReconcileCases | internal/usecase/fs/recovery.go:124-160 | A failed stat, inode or upsert counts one attempt and leaves the intent pending exactly while tries are left, else it is aborted; a missing target aborts; otherwise it is done; no other entry changes |
| RecoveryRetries.ReconcileRows | internal/usecase/fs/recovery.go:137-144 | The index changes only by the row of the statted inode, which names the intent's actor and type |
| RecoveryRetries.FailingIntentIsRetried | internal/usecase/fs/recovery.go:64-160 | Over any number of passes, an intent all of whose visits fail is pending after k visits, with k more attempts, exactly when k is 0 or attempts + k is below the cap, and aborted otherwise |
| Reconciliation.ReconcileSpends | internal/usecase/fs/recovery.go:124-160 | Every reconciliation strictly lowers the sum over pending intents of max(1, maxTries - attempts), and the pending count exactly when it is terminal |
| Reconciliation.SweepScans | internal/usecase/fs/recovery.go:78-96 | Unless cancelled, a batch counts each listed intent once |
| RecoveryConvergence.PassAccounts | internal/usecase/fs/recovery.go:64-114 | With a healthy journal a pass scans at most the initial budget, scanned = completed + aborted + retried, and completed + aborted is the drop in pending intents |
| RecoveryAccounts.PassTallies | internal/usecase/fs/recovery.go:78-92 | Completed counts the intents that became done, aborted those that became aborted, and retried the attempts counted |
| RecoveryAccounts.WhyAPassEnds | internal/usecase/fs/recovery.go:70-103 | A pass ends as cancelled exactly when it has scanned up to its deadline, where it stops, and with an error exactly when the loop comes to a listing that fails |
| RecoveryConvergence.LostMarksMakeNoProgress | internal/usecase/fs/recovery.go:129-131 | If every mark is lost, a batch of missing targets counts as progress and leaves the store as it was |
| RecoveryLoop.LoopEndsAsPass | internal/usecase/fs/recovery.go:70-103 | Where no mark is lost, there is a deadline, or less than a batch is pending, the loop ends after some number of rounds, as the pass does |
| RecoveryLoop.EndsWhateverHappens | internal/usecase/fs/recovery.go:70-103 | A pass is sure to end, whatever storage, journal and index answer, exactly when there is a deadline or less than a batch is pending at its start |
| RecoveryLoop.LostMarksRunForever | internal/usecase/fs/recovery.go:70-103 | If every mark is lost, targets are missing, a full batch is pending and there is no deadline, the loop is still running after any number of rounds |
| RecoveryConvergence.PassMoves | internal/usecase/fs/recovery.go:64-114 | Each pass visits all of the oldest batch, whatever stats and upserts answer |
| RecoveryConvergence.ConvergenceBound | internal/usecase/fs/recovery.go:64-160 | N pending intents are all resolved after ceil(N / batchSize) * maxTries passes, whatever stats and upserts answer |
| RecoveryEquivalence.BatchSizeIndependence | internal/usecase/fs/recovery.go:70-103 | Over a tree that holds still, any batch size gives the fold of one reconciliation over the pending intents in enqueue order; none stays pending, and each row comes from the youngest completed intent that names its inode; without an index no row changes |
| RecoveryEquivalence.CutPassKeepsEnd | internal/usecase/fs/recovery.go:64-149 | A pass cut short anywhere, also between the upsert and the mark, does not change where a complete pass will end |
| RecoveryEquivalence.InterruptedEqualsUninterrupted | internal/usecase/fs/recovery.go:64-149 | Any number of interrupted passes followed by a complete one end in the same rows and journal as one complete pass |
| NodeStore.FileNodeStore.UpsertCreatedOrUpdated | internal/infra/persistence/memory/file_node_store.go:20-36 | The row of the inode becomes the mutation's, with type file when none is known |
| NodeStore.FileNodeStore.MarkDeleted | internal/infra/persistence/memory/file_node_store.go:38-43 | The row of the inode goes, and no other |
| NodeStore.FileNodeStore.LookupByInodeIDs | internal/infra/persistence/memory/file_node_store.go:45-55 | Exactly the rows of the asked inodes are returned |
| NodeStore.SqlFileNodeStore.UpsertCreatedOrUpdated | internal/infra/persistence/mysql/file_node_store.go:85-97 | A new row is inserted; an existing one, tombstoned or not, is revived and keeps its type unless a known one is given |
| NodeStore.SqlFileNodeStore.MarkDeleted | internal/infra/persistence/mysql/file_node_store.go:99-108 | A live row is tombstoned; an absent or tombstoned one stays as it is |
| NodeStore.SqlFileNodeStore.LookupByInodeIDs | internal/infra/persistence/mysql/file_node_store.go:110-134 | Exactly the rows of the asked inodes that carry no tombstone are returned |
| NodeStore.MapStepSpelled | internal/infra/persistence/memory/file_node_store.go:20-43 | After an upsert the inode's row is the mutation's, of type file when none is known; a delete takes it away; no other inode is touched |
| NodeStore.TableStepSpelled | internal/infra/persistence/mysql/file_node_store.go:56-108 | A reader of the table sees the same, except that an upsert without a known type keeps that of an existing row, also of a tombstoned one |
| NodeStore.UpsertRefinesIff | internal/infra/persistence/mysql/file_node_store.go:56-97 | One upsert of the table looks like one of the map exactly when the type is known, the inode has no row, or that row is a file's |
| NodeStore.UnknownTypeSeparatesStores | internal/infra/persistence/mysql/file_node_store.go:71-97 | An upsert without type after a directory's deletion separates the two stores |
| NodeStore.TableRefinesMap | internal/infra/persistence/mysql/file_node_store.go:56-134 | Under any sequence of upserts with known types, deletes and lookups, the table read through its tombstones is the in-memory map |
| PosixTree.MkdirAllCreates | internal/infra/fs/workspace_fs.go:31-36 | Making a directory creates exactly the missing directories on its way, and fails only when a file is in the way |
| PosixTree.RenameUnrelated | internal/infra/fs/workspace_fs.go:183-185 | A rename never works between a path and one of its ancestors |
| PosixTree.MoveBack | internal/infra/fs/workspace_fs.go:133-136 | Moving a subtree to a free place and back is the identity |
| WorkspaceClient.WorkspaceFSClient.SoftDelete | internal/infra/fs/workspace_fs.go:113-139 | The method's steps leave tree, metadata, index and reply as the function SoftDelete says, for every failing call |
| WorkspaceClient.WorkspaceFSClient.RestorePath | internal/infra/fs/workspace_fs.go:387-417 | Likewise for restoring an entry to its recorded path |
| WorkspaceClient.WorkspaceFSClient.DeletePath | internal/infra/fs/workspace_fs.go:81-111 | Likewise for deleting, softly or for good |
| WorkspaceClient.WorkspaceFSClient.EmptyRecycleBin | internal/infra/fs/workspace_fs.go:419-442 | Likewise for the loop over the trash, whatever order the entries are listed in |
| WorkspaceClient.WorkspaceFSClient.RenameOrMove | internal/infra/fs/workspace_fs.go:150-188 | Likewise for renaming and moving |
| WorkspaceClient.WorkspaceFSClient.RecordUpsert | internal/infra/fs/inode_record.go:16-41 | Likewise for recording whatever is at a path under the type its directory bit gives |
| WorkspaceClient.WorkspaceFSClient.CopyPath | internal/infra/fs/workspace_fs.go:190-223 | Likewise for the copy request with its checks |
| WorkspaceClient.WorkspaceFSClient.CopyFile | internal/infra/fs/workspace_fs.go:520-538 | Likewise for copying one file: an existing file is truncated and keeps its inode, and a file copied onto itself loses its content |
| WorkspaceClient.WorkspaceFSClient.CopyDir | internal/infra/fs/workspace_fs.go:540-565 | Likewise for the walk that copies a directory |
| WorkspaceEffects.RestoreSucceeds | internal/infra/fs/workspace_fs.go:387-413 | A restore succeeds exactly when trash path and record exist, the recorded path is free and reachable, and the calls work; a taken path is refused as existing, a missing record as not found, a path outside the trash as invalid |
| WorkspaceEffects.RestoreKeepsLive | internal/infra/fs/workspace_fs.go:404-414 | Whatever comes of it, everything outside the trash stays; what is new is the restored subtree at its recorded path and directories above it |
| WorkspaceEffects.SoftDeleteKeepsLive | internal/infra/fs/workspace_fs.go:113-139 | Whatever comes of a soft delete, what is not at or below its path stays, and on failure the path does too, unless a failed metadata write was not taken back |
| WorkspaceEffects.SoftDeleteRefused | internal/infra/fs/workspace_fs.go:114-129 | A soft delete is refused as invalid exactly for the root and the trash, and as existing exactly when its entry is there, with nothing changed |
| WorkspaceEffects.PermanentDelete | internal/infra/fs/workspace_fs.go:94-110 | A permanent delete succeeds exactly when the path exists and its removal works; then exactly what was at or below it is gone; the path's own row goes with the mark, also if the removal fails, and no other |
| WorkspaceEffects.SoftDeleteOfNothing | internal/infra/fs/workspace_fs.go:82-88 | A soft delete request on what is not there changes nothing, and on what is there it is the soft delete |
| WorkspaceEffects.EmptyEffect | internal/infra/fs/workspace_fs.go:419-442 | Emptying succeeds exactly when there is no trash or all its entries can be removed; nothing outside the trash changes, exactly the entries' own marked rows go, and all records go with their directory |
| WorkspaceRecords.CreateFileEffect | internal/infra/fs/workspace_fs.go:42-62 | A file is written exactly when there is a way to it, no directory is in its place and an existing file may be overwritten; it has the content and a new inode, and every other node stays |
| WorkspaceRecords.CreateFolderEffect | internal/infra/fs/workspace_fs.go:31-36 | A folder is made exactly when no file is at or above it, with the missing directories down to it and no other change |
| WorkspaceRecords.SoftDeleteOwns | internal/domain/file/node_type.go:30-35 | After a soft delete the node's row names the actor, says Directory of a directory and File of a file, and no other row changed |
| WorkspaceRecords.RestoreOwns | internal/domain/file/node_type.go:30-35 | So after a restore |
| WorkspaceRecords.MoveOwns | internal/domain/file/node_type.go:30-35 | So after a move |
| WorkspaceRecords.CopyOwns | internal/domain/file/node_type.go:30-35 | So after a copy, for its top node only |
| WorkspaceRecords.MoveRefused | internal/infra/fs/workspace_fs.go:150-171 | Exactly when a move is refused as not found, of mismatched kinds, or as existing, with nothing changed |
| WorkspaceRecords.CopyRefused | internal/infra/fs/workspace_fs.go:190-207 | Exactly when a copy is refused so |
| RecycleRuns.SoftDeleteMeaning | internal/infra/fs/workspace_fs.go:113-139 | A soft delete of a path other than _meta succeeds exactly when its calls work, the path exists below the root and outside the trash, and its entry is free |
| RecycleBin.TrashThenRestore | internal/infra/fs/workspace_fs.go:387-417 | Restoring takes back a soft delete: the tree is the same, inodes and contents included |
| RecycleBin.RestoreCommutes | internal/infra/fs/workspace_fs.go:113-139 | A restore and a soft delete of unrelated paths may be swapped |
| RecycleRuns.RestoreInUndoOrder | internal/infra/fs/workspace_fs.go:387-417 | Any sequence of successful soft deletes is undone by restores that put related paths back in the opposite order: the live tree is the same, and the metadata records are gone |
| RecycleRuns.ReverseRestoreIsIdentity | internal/infra/fs/workspace_fs.go:387-417 | In reverse order that undoes any sequence of successful soft deletes |
| RecycleRuns.UnrelatedRestoreInAnyOrder | internal/infra/fs/workspace_fs.go:387-417 | Paths none of which lies below another may be restored in any order |
| RecycleIndex.SoftDeleteRow | internal/infra/fs/workspace_fs.go:137 | A soft delete gives the node the deleter's row under the type of its directory bit and changes no other row |
| RecycleIndex.RestoreRow | internal/infra/fs/workspace_fs.go:415 | A restore gives it the restorer's |
| RecycleIndex.RestoreInUndoOrderRecords | internal/infra/fs/workspace_fs.go:387-417 | After any sequence of soft deletes was undone every restored node has its restorer's row, and every other row is as at the start |
| TrashAgreement.SoftDeleteAgrees | internal/infra/fs/workspace_fs.go:127-136 | A soft delete keeps entries and records one to one exactly when a metadata write it reaches works or is taken back |
| TrashAgreement.RestoreAgrees | internal/infra/fs/workspace_fs.go:411-414 | A restore keeps them so exactly when it fails or its record is removed |
| TrashAgreement.NothingInTrashOverwritten | internal/infra/fs/workspace_fs.go:127-132 | A soft delete leaves everything already in the trash, and every record, as it was |
| TrashAgreement.EmptyAgrees | internal/infra/fs/workspace_fs.go:419-442 | Emptying keeps the two together, and leaves both empty when it succeeds |
| TrashAgreement.TrashAndRecordsAgree | internal/infra/fs/workspace_fs.go:113-139 | In every state reached by soft deletes, restores, empties, and deletes, moves, copies and creations outside the trash, entries and records are one to one and each recorded path encodes to its entry name |
| TrashNames.EncodeJoined | internal/infra/fs/trash.go:35-37 | Replacing each slash by "__" joins the segments with "__" |
| TrashNames.DecodeEncode | internal/infra/fs/trash.go:35-37 | A path can be read back from its entry name exactly when no segment holds "__" and none but the last ends in "_" |
| TrashNames.EntryNamesInjective | internal/infra/fs/trash.go:35-37 | On those paths the encoding is injective |
| TrashNames.EntryNamesCollide | internal/infra/fs/trash.go:35-37 | Outside them it is not: a_/b and a/_b share an entry, for all a and b |
| TrashNames.EntryIsShared | internal/infra/fs/trash.go:35-37 | Some other path has the same entry name exactly when a path has more than one segment, or its only one holds "__" with something on each side |
| TrashNames.MetaNameOnlyOfMeta | internal/infra/fs/trash.go:31-37 | Only the path _meta would take the name of the metadata directory |
| MoveTree.MoveSucceeds | internal/infra/fs/workspace_fs.go:150-188 | A move whose calls work succeeds exactly when the source exists and the destination is the source, or a file overwritten by a file, or free, reachable and not below the source |
| MoveTree.MoveRelocates | internal/infra/fs/workspace_fs.go:150-188 | A successful move puts every src+suffix at dest+suffix with the same inode and content and changes nothing else but new ancestor directories |
| MoveTree.MoveRecordsMover | internal/infra/fs/workspace_fs.go:176-186 | The moved node's own row becomes the mover's although it was marked deleted on the way, and no other row changes |
| MoveTree.MoveKeepsRows | internal/infra/fs/workspace_fs.go:176-186 | Every descendant is found by its inode at its new place with the row it had |
| MoveTree.MoveKeepsInodesDistinct | internal/infra/fs/workspace_fs.go:150-188 | No inode is in use twice afterwards |
| MoveTree.FailedMoveLosesRow | internal/infra/fs/workspace_fs.go:163-185 | What stays at src has lost its row exactly when the move reached the rename and that failed, as it does for a destination directory or one below the source |
| CopyTree.EntryCopied | internal/infra/fs/workspace_fs.go:520-564 | One step of the walk overlays one entry, and fails, changing nothing, exactly when kinds do not match |
| CopyTree.CopyOverlays | internal/infra/fs/workspace_fs.go:520-565 | Between unrelated places the copy succeeds exactly when no file is in the way and kinds match; dst becomes the old dst overlaid by src, and src is unchanged in any case |
| CopyTree.CopySpelled | internal/infra/fs/workspace_fs.go:520-564 | After a copy every entry of the source is there, directories as directories and files with their content; what was there keeps its inode, and what the source lacks stays |
| CopyTree.DirConfined | internal/infra/fs/workspace_fs.go:540-565 | Any copy, also one that fails half-way or lies inside its source, leaves a tree and leaves alone what is neither above nor below its destination |
| CopyRequests.CopyDirRequest | internal/infra/fs/workspace_fs.go:190-223 | The whole request on a directory succeeds exactly when its place is free and reachable, or is a directory to be overwritten whose kinds match; the index then knows of the copied directory itself only |
| CopyRequests.CopyFileRequest | internal/infra/fs/workspace_fs.go:190-223 | The request on a file succeeds exactly when its place is free and reachable or is a file to be overwritten; the copy has the content of the source, except that a file copied onto itself is emptied |
| AtomicWrite.AtomicWriteFile | internal/infra/fs/workspace_fs.go:486-518 | In every state on the way the target is as before or complete and durable and only the temporary file differs otherwise; with working cleanup nothing is left on failure; on success only the target changed |
| AtomicWrite.CrashLeavesOldOrNew | internal/infra/fs/workspace_fs.go:483-518 | A crash that loses everything not flushed leaves the target old or complete, and every listed name as it was |
| Breadcrumbs.GetFolderNodePath | internal/infra/fs/workspace_fs.go:343-376 | The loop terminates and returns the nodes of the climb, with the replies for missing paths and files |
| Breadcrumbs.ListingSucceeds | internal/infra/fs/workspace_fs.go:343-376 | In a parent-closed tree it succeeds for every directory |
| Breadcrumbs.DirPops | internal/infra/fs/workspace_fs.go:369-373 | The parent of a clean path has one name less |
| Breadcrumbs.ClimbIsAncestors | internal/infra/fs/workspace_fs.go:356-375 | For a directory at or under the user root the list is exactly the directories from the root down to it, in order |
| Breadcrumbs.BreadcrumbChain | internal/infra/fs/workspace_fs.go:356-375 | Each is the parent of the next, the first is the root, the last the target, and there are depth + 1 |
| Breadcrumbs.StartsAtRoot | internal/infra/fs/workspace_fs.go:366-372 | The list starts at the user root exactly when the target is at or under it, although the prefix check compares characters |
| Text.TrimSpaceCuts | internal/domain/identity/context.go:68 | Trimming cuts white space at both ends and nothing else |
| Paths.CleanByElement | internal/domain/identity/context.go:75 | Element by element: a name goes below, a dot or doubled slash changes nothing, two dots go up one name, stay at a root, and are kept where a relative path has no name to take back |
| Paths.CleanFirstElement | internal/domain/identity/context.go:75 | So for the first element of a relative and of a rooted path |
| Paths.CleanSpelled | internal/domain/identity/context.go:75 | The text of a clean path is its names joined by slashes, after a slash if rooted, or a slash or dot alone |
| Paths.CleanIdempotent | internal/domain/identity/context.go:75 | Cleaning is idempotent and keeps the names of a path |
| UserPaths.PrefixSpelled | internal/domain/identity/context.go:58-62 | The prefix is {appId}/{workspaceId}/users/{uin} |
| UserPaths.PrefixesDiffer | internal/domain/identity/context.go:60-62 | Two contexts share a prefix exactly when application, workspace and user all agree |
| UserPaths.ResolvesInOwnPrefixOnly | internal/domain/identity/context.go:67-85 | What resolves for one user lies below another's prefix exactly when the two are the same |
| UserPaths.TargetSpelled | internal/domain/identity/context.go:80-84 | A path leads to the caller's names, below the prefix unless they start with it |
| PathResolution.ResolvesUnderUserRoot | internal/domain/identity/context.go:67-85 | A path is accepted exactly when it is relative and stays inside, and then resolves name by name below the user's prefix |
| PathResolution.AbsResolves | internal/usecase/fs/service.go:82-100 | For a clean mount root the final check rejects an accepted path exactly when the root is "/" or "."; otherwise the result is the mount, the prefix and the rest, name by name |
| UserPaths.BlankIsUserRoot | internal/usecase/fs/service.go:86-89 | A blank path means the user's own directory |
| UserPaths.NoMountNoPath | internal/usecase/fs/service.go:83-85 | Without a mount root nothing resolves |
| UserPaths.UserRelPathOnlyBelow | internal/infra/fs/workspace_fs.go:444-455 | The client reads a relative path from exactly the paths at or below the user's directory, and it is the rest of their names |
| PathResolution.UserRelPathAccepts | internal/infra/fs/workspace_fs.go:444-455 | The client accepts every resolved path and reads from it the path below the user root |
| PathResolution.ResolveIdempotent | internal/domain/identity/context.go:67-85 | Resolving a resolved path changes nothing exactly when it does not end in white space |
| PathResolution.ShownPath | internal/usecase/fs/service.go:152-160 | The path shown to callers is the resolved one without the mount |
| PathResolution.RoundTrip | internal/usecase/fs/service.go:82-160 | Feeding the shown path back leads to the same absolute path exactly when it does not end in white space |
| UserPaths.NormalizeKeeps | internal/domain/identity/context.go:44-56 | Normalizing trims application and workspace, and keeps user and owner, trimmed, unless blank |
| PathResolution.NormalizeTrims | internal/domain/identity/context.go:44-56 | Normalizing trims, fills a missing user or owner by the other, and is idempotent |
| IdentityFS.SkipsGitDir | internal/infra/git/identity_fs.go:132-135 | A relative path is skipped exactly when its first name is .git |
| IdentityFS.OpenSpelled | internal/infra/git/identity_fs.go:45-49 | Exactly which opens the wrapped file system grants, and what they create |
| IdentityFS.StepIndexes | internal/infra/git/identity_fs.go:36-174 | What one operation does to one inode's row: claiming gives it the actor, removing takes it away, and nothing else does either |
| IdentityFS.ClaimedHasRow | internal/infra/git/identity_fs.go:36-174 | Over every run, what was created, renamed, made as a directory, or written and closed while its path still named it, outside .git, and not removed since, has a row of the actor |
| IdentityLiveness.StepKeepsTree | internal/infra/git/identity_fs.go:36-86 | Every operation leaves a tree with distinct inodes |
| IdentityLiveness.LiveHasRow | internal/infra/git/identity_fs.go:36-174 | Over every run from a tree with distinct inodes, what was so claimed and is live at the end, wherever it is, has a row of the actor that says directory of a directory and file of a file; the inode is not to be given out anew in between |
| IdentityFS.RemovedHasNoRow | internal/infra/git/identity_fs.go:69-78 | Over every run, the inode of a file removed outside .git has no row until something with that inode is recorded |
| IdentityFS.OpenedForWritingIsRecorded | internal/infra/git/identity_fs.go:45-56 | A file opened without creating it and closed at once is recorded exactly when it was opened for anything but reading |
| IdentityFS.DirtiedByWriting | internal/infra/git/identity_fs.go:152-166 | Writing at least one byte, or a truncation that works, makes an open file dirty, and nothing else changes |
| IdentityFS.CloseRecordsByPath | internal/infra/git/identity_fs.go:168-174 | Closing a written file without a row gives it one exactly when the path it was opened under still names it and is not in .git |
| IdentityFS.RenamedWhileOpen | internal/infra/git/identity_fs.go:168-174 | A file that is opened to be written, written, and closed after its directory was renamed goes without a row although it is there |
| IdentityFS.IdentityFileSystem.OpenFile | internal/infra/git/identity_fs.go:45-56 | Tree, index and open file end as one step of the run model says: an opened file is recorded only when it may have been created |
| IdentityFS.IdentityFileSystem.Create | internal/infra/git/identity_fs.go:36-43 | Tree, index and open file end as one step of the run model says: a created file is recorded at once |
| IdentityFS.IdentityFileSystem.Close | internal/infra/git/identity_fs.go:168-174 | Tree, index and open file end as one step of the run model says: closing a dirty file records whatever its path names |
| IdentityFS.IdentityFileSystem.Rename | internal/infra/git/identity_fs.go:58-67 | Tree, index and open file end as one step of the run model says: the renamed inode is recorded under its new path, and directories made for a rename that fails stay |
| IdentityFS.IdentityFileSystem.Remove | internal/infra/git/identity_fs.go:69-78 | Tree, index and open file end as one step of the run model says: the removed inode loses its row |
| IdentityFS.IdentityFileSystem.MkdirAll | internal/infra/git/identity_fs.go:80-86 | Tree, index and open file end as one step of the run model says: the made directory is recorded |
| IdentityFS.IdentityFile.Write | internal/infra/git/identity_fs.go:152-158 | A file is dirty from the first write of at least one byte on |
| IdentityFS.IdentityFile.Truncate | internal/infra/git/identity_fs.go:160-166 | A file is dirty from the first truncation that works on |

## Left out

- Recovery.Recoverer.RecoverAll: asks that the context has a deadline, or less than a batch is pending, or no journal update is lost; the source asks nothing. Without all three the loop may run forever, or end by chance (RecoveryLoop.EndsWhateverHappens); RecoveryLoop.Rounds gives its state after any number of rounds.
- WriteCrashSafety.LandedWritesAreSafe: assumes an exclusive scan (WriteSafety.OverlapUndoesDone is a run without it) and that the path is not deleted after a write landed on it; binding the path from outside and deleting rows are allowed.
- WriteCrashSafety.LastDoneHasRow: assumes further that, once a write landed on the path, nothing outside puts another inode there or deletes the row of the one there.
- WorkspaceClient.WorkspaceFSClient.SoftDelete: takes the path below the user root; reading that from an absolute path is PathResolution.UserRelPathAccepts. The path `_meta`, whose entry would be the metadata directory itself, is excluded: trash/_meta is a table of records here, and the outcome depends on whether that directory is there yet.
- WorkspaceClient.WorkspaceFSClient.RestorePath: without a target parent.
- WorkspaceClient.WorkspaceFSClient.DeletePath: a removal works or changes nothing, so a RemoveAll that stops half-way is not modelled, nor is deleting the user root itself.
- WorkspaceClient.WorkspaceFSClient.CopyDir: read and write errors of a copy are not modelled. The walk may visit entries in any order that puts directories before their contents.
- AtomicWrite.AtomicWriteFile: the name of the temporary file is taken to be free, as the retries of os.CreateTemp make it; the mode set by chmod is not modelled.
- IdentityLiveness.LiveHasRow: asks that the inode is not given out anew after the step that claimed it; an inode used again for a file in .git goes unrecorded.
- IdentityFS.IdentityFileSystem.Close: the class has one file open at a time; the run model has any number. File contents and a missing index are not modelled, and the wrapped file system behaves like the operating system's.
- Breadcrumbs.GetFolderNodePath: returns path, inode and directory bit of each node; size, time and the enrichment from the index are not modelled.
- The strings of node types: a mutation carries the known type its string spells, or none.
- The journal's last error and the time stamps of journal, index and trash records.
- JSON: a metadata write that fails leaves no record.
- The SQL form of the journal, which treats repeated ids and limits below one differently.
- The mutexes of the in-memory stores: each of their methods is one step.
- Creation of notebooks: a file with a default content.
- Symbolic and hard links, permissions, file name limits, home directory expansion and Windows paths.
- HTTP handlers, the gateway and proxies, kernel sessions, git operations and the clone job registry: plumbing, or libraries that are not part of this model.

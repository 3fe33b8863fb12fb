# aish shell core: models and proofs

Dafny models of the stateful parts of the aish shell, with proofs about whole runs.

* **Reversible file operations** (`FileSystem`, `Snapshot`, `Undo`, `Commands`, `RestoreSafety`,
  `Rollback`, `EventLog`, `Detect`, `History`): a file system is a map from paths to directories and files;
  the snapshot store, the event log and its index are further maps. `rm` and `mv` are sequences of
  single system calls that may stop anywhere, in the middle of a copy, too. It is proved exactly when undo
  and rollback restore the state before.
* **Plugin demultiplexer** (`PluginDemux`): one reader, any number of callers, the child and the shell,
  interleaved step by step.
* **Intent cache** (`IntentCache`, `Similarity`): the table and the tiers of `Resolve` over arbitrary
  answers of plugin and community bundle.
* **Search and vector index** (`RankFusion`, `Reindex`): fusion of ranked lists, and a backfill over two
  stores that may be killed between any two writes.
* **Jobs** (`JobTable`, `JobNotices`): the table with its scans, and its interleaving with the reaper.
* **Text** (`Environment`, `Parser`, `Quoting`, `Grammar`, `PersonaConfig`): expansion, tokenizing and parsing against
  a grammar of lines, and the rewrite of the
  active persona in the shared config file.

Objects that the program updates in place are classes here. Each method is proved against a
function or predicate on values, and the theorems are about those.

Terms used below: an event is *covered* when no row of it is skipped, no path has two rows, and it
marks no directory rename. Rows *account for* damage when each difference from the recorded state is
a missing path at or above a row's path, an overwritten file with an overwrite row, or a copy of a
moved file at the move's target. A state is *settled* when every target of a move that was free before
is free again or holds just what was moved there; after `rm` it always is.

Where the code and its comments differ, the code is followed:

* Rollback applies events newest first (shell/internal/shell/builtin_history.go:272-285); the comment at
  shell/internal/history/store.go:447-455 says oldest first.
* The reader's send at shell/internal/cache/plugin.go:192 blocks; the comment above it calls it
  non-blocking. `SendCompletesIff` says when it can complete, and `WedgeIff` which numbers of frames can block it for good.
* `Reap` does not sort what it returns (shell/internal/jobs/jobs.go:318-343), so `removed` is specified as a set.
* Sibling sections of the config file are documented as preserved and a written persona as read back;
  the reader's line scanner stops for good at a line of 64 KiB, so read-after-write holds exactly under
  the condition in `ValidNameReadBackIff`.
* `HasEvent` asks the meta table only; `RepairsIff` gives the states that a reindex never repairs, and
  `TornByCutDeleteIff` the cut that leads to one when the model changes.
* Undo of a `mv` promises the state before it, but a file at a target that was free stays when it holds other
  bytes than the row's digest: the part of a copy that stopped (`PartialCopyStays`), or what a later
  stage of the pipeline moved on (`ChainedMoveStays`). `UndoExact` has the condition for every run.
* `LatestRestorable` skips an event without saved bytes, so `undo` does not bring back an empty directory
  (`EmptyDirNotUndone`), which `RestoreEvent` would.
* Current and prev can be the same job (`PointersMeetIff`), and then a listing has no `-`.
* Undoing a directory `mv` removes the target if it is an empty directory, says the comment at
  shell/internal/history/snapshot.go:354-355; the call removes a regular file there as well, without looking at its bytes
  (`SilentLoss`). `NoDataLostIff` has the exact condition under which no live file can be lost.
* A directory `mv` is undone exactly only when the directory was empty (`UndoDirMoveIff`), or
  nothing was below the target yet (`UndoDirMoveAnywhereIff`).

## Model

| member | source | states |
|---|---|---|
| `Snapshot.Snapshotter.Snapshot` | shell/internal/history/snapshot.go:71-116 | Copies exactly a regular file that is not ignored and is within the size limit: one new slot with its bytes and a row with their digest; for any other path the store stays and the row says why. |
| `Snapshot.Snapshotter.SnapshotBelow` | shell/internal/history/snapshot.go:141-152 | One row, and no second one, for every path below a directory and for nothing else. |
| `Snapshot.Snapshotter.SnapshotMany` | shell/internal/history/snapshot.go:125-155 | The rows are those of each target in order, each covering exactly the target's tree without repeats, whatever order the walk takes. |
| `Snapshot.Snapshotter.SnapshotMove` | shell/internal/history/snapshot.go:170-243 | Records the source (renamed, absent, skipped, or a marked directory with its tree) with the effective target, and the bytes of a file the move overwrites. |
| `Snapshot.MoveTarget` | shell/internal/history/snapshot.go:170-198 | The first row of a move is of its source, and its target is the path in the directory when the destination is one, else the destination. |
| `Snapshot.Snapshotter.Restore` | shell/internal/history/snapshot.go:261-284 | The disk afterwards, and success, are what one row's restore makes of the disk before. |
| `Snapshot.Snapshotter.RestoreBytes` | shell/internal/history/snapshot.go:307-336 | Digest check, conflict guard unless forced, parent made, bytes put back; on failure the file keeps its bytes. |
| `Snapshot.RottedFails` | shell/internal/history/snapshot.go:307-318 | A snapshot that is gone or differs from its digest fails and changes nothing. |
| `Snapshot.NothingToRestoreFails` | shell/internal/history/snapshot.go:261-284 | A skipped or absent row, or one without saved bytes, fails and changes nothing. |
| `Snapshot.OkIffAll` | shell/internal/history/interceptor.go:191-214 | Replaying succeeds if and only if every row's restore does, each on the disk the rows before it left. |
| `Snapshot.Snapshotter.RestoreRenamed` | shell/internal/history/snapshot.go:347-376 | Un-renames: a directory marker is made again and its target removed; a file is put back and its target dropped only while it still holds the moved bytes. |
| `Snapshot.ManyPaths` | shell/internal/history/snapshot.go:125-155 | The paths recorded for several targets are exactly the union of the targets' trees. |
| `Snapshot.RecordableIff` | shell/internal/history/snapshot.go:125-155 | The rows of several targets have distinct paths if and only if no target is named twice or, existing, lies below another. |
| `FileSystem.MkdirAllMakes` | shell/internal/history/snapshot.go:274-280 | When no file stands in the way, making a directory with its parents succeeds, keeps everything and adds exactly the missing directories. |
| `FileSystem.MkdirAllIff` | shell/internal/history/snapshot.go:274-280 | On a well-formed tree it succeeds if and only if no file stands in the way. |
| `FileSystem.MkdirAllKeeps` | shell/internal/history/snapshot.go:319-330 | Making directories keeps every file, succeed or fail. |
| `Undo.RestoreStep` | shell/internal/history/snapshot.go:261-376 | Restoring the first of the remaining rows succeeds and leaves only damage that the other rows account for. |
| `Undo.RestoreEventExact` | shell/internal/history/interceptor.go:191-214 | From any file system that differs from the recorded one only by damage the rows account for, RestoreEvent reports success and rebuilds the recorded one exactly. |
| `Undo.RestoreEventLeaves` | shell/internal/history/snapshot.go:347-376 | When moves have also left files at targets that were free, with other bytes than were moved there, RestoreEvent still succeeds, and rebuilds the recorded state plus exactly those files. |
| `Undo.RestoreInTwo` | shell/internal/history/interceptor.go:199-213 | The two loops of RestoreEvent restore as one pass over directories, then files. |
| `Undo.PlanRecord` | shell/internal/history/interceptor.go:294-311 | Reordering the rows into directories and then files loses nothing an undo needs. |
| `Commands.CoveredRecord` | shell/internal/history/interceptor.go:137-147 | What Before saves for a covered rm or mv holds everything needed to rebuild the state before it. |
| `Commands.RmStep` | shell/internal/history/snapshot.go:125-155 | No removal that rm makes goes beyond the damage its rows account for. |
| `Commands.MvStep` | shell/internal/history/snapshot.go:170-243 | Whatever system call mv makes (rename, copy that may stop anywhere, at a free or a taken target, removal of either end, of a source that was there or that an earlier stage made), the disk stays explained by the rows, up to files left at fresh targets. |
| `Commands.MovesNamePairs` | shell/internal/history/snapshot.go:170-243 | Every pair of a mv has a row of its source with the effective target, and no row has any other target. |
| `Commands.SettledIff` | shell/internal/history/snapshot.go:361-375 | In a state a covered command can reach, nothing is left at a fresh target if and only if each such target is free or holds just what was moved to it. |
| `Commands.UndoExact` | shell/internal/history/interceptor.go:191-214 | However far a covered rm or mv got, undoing its event succeeds, whatever was saved since, and rebuilds exactly the state before it if and only if every target that was free before is free again or holds just what was moved there. A second undo changes nothing. |
| `Commands.RmUndoExact` | shell/internal/history/interceptor.go:191-214 | However far a covered rm got, undo rebuilds exactly the state before it. |
| `Commands.PartialCopyStays` | shell/internal/history/snapshot.go:361-375 | A copy to a free target that stops in the middle: undo reports success and leaves the disk with the part still there. |
| `Commands.ChainedMoveStays` | shell/internal/history/interceptor.go:137-141 | A file moved to a free path and on to another by two stages of one pipeline: the event is recorded and covered, both moves run, and undo succeeds and brings the file back, but the last copy stays. |
| `RestoreSafety.NoLiveDataLost` | shell/internal/history/snapshot.go:307-376 | From any file system and snapshot store, restoring an event with distinct paths and no file renamed onto itself keeps every byte string held by a file that no overwrite row names, as long as no such file is at the target of a directory rename. |
| `RestoreSafety.NoDataLostIff` | shell/internal/history/snapshot.go:347-360 | Such an event loses nothing on any disk with any store if and only if each directory rename's target is the root, has its old bytes saved, or is at or above the source. |
| `RestoreSafety.SilentLoss` | shell/internal/history/snapshot.go:347-360 | A file that stands at the target of a directory rename by then is removed whatever it holds, and undo reports success. |
| `RestoreSafety.SelfMoveRejected` | shell/internal/history/snapshot.go:211-240 | A file moved onto itself gets two rows for one path, so the event cannot be recorded. |
| `RestoreSafety.UndoDirMoveIff` | shell/internal/history/snapshot.go:347-360 | Undoing a finished mv of a directory to a free path is exact if and only if the directory was empty. |
| `RestoreSafety.UndoDirMoveAnywhereIff` | shell/internal/history/snapshot.go:347-360 | However far the mv of a saved directory to a free path got, undo succeeds, and is exact if and only if nothing is below the target by then. |
| `RestoreSafety.MovedTreeAt` | shell/internal/history/snapshot.go:201-221 | The whole directory at its new place is one of the states such a mv can stop in. |
| `EventLog.Store.Append` | shell/internal/history/store.go:317-377 | Adds the event and all its rows, or changes neither table. |
| `EventLog.Store.Finalize` | shell/internal/history/store.go:497-532 | Sets exit code and whole milliseconds of the event with that id and nothing else; fails exactly when there is none. |
| `EventLog.MillisIs` | shell/internal/history/store.go:497-505 | Milliseconds are whole, rounded toward zero. |
| `EventLog.Store.Checkpoint` | shell/internal/history/store.go:386-416 | Adds one finished checkpoint event of that id, time and name and no row; fails exactly on an empty name or id or a taken id. |
| `EventLog.CheckpointAdds` | shell/internal/history/store.go:386-416 | The same of the value model. |
| `EventLog.CheckpointFound` | shell/internal/history/store.go:420-445 | After a checkpoint newer than the log is written, asking for its name answers it, and asking for any other name answers as before. |
| `EventLog.Store.Purge` | shell/internal/history/search.go:205-231 | Keeps exactly the events that are not older, in order, and exactly the index rows that belong to no older event, unchanged; counts what it drops; and a table that agreed with the log still does. |
| `EventLog.InsertAllInserts` | shell/internal/history/store.go:353-370 | Inserting an event's rows succeeds exactly when the paths are distinct and free, and then adds exactly those rows. |
| `EventLog.AppendAgrees` | shell/internal/history/store.go:345-370 | An event is recorded exactly when its id is new and its paths are distinct; both tables then agree, and otherwise nothing changes. |
| `EventLog.PurgeAgrees` | shell/internal/history/search.go:209-229 | A purge keeps the index equal to the rows of the events that are left. |
| `EventLog.IndexAlwaysAgrees` | shell/internal/history/store.go:345-370 | After any run of append, finalize, checkpoint and purge the snapshots table is exactly the affected rows of the live events. |
| `EventLog.PathAnswerIsLatest` | shell/internal/history/store.go:592-617 | In every reachable log SnapshotsForPath answers a restorable row of a finished event that no later finished event supersedes, and nothing exactly when there is none. |
| `EventLog.SinceIsReverse` | shell/internal/history/store.go:456-488 | With increasing timestamps EventsSinceCheckpoint is exactly the reverse of log order, restricted to finished snapshot events after the checkpoint. |
| `EventLog.LatestIs` | shell/internal/history/store.go:542-552 | When one finished snapshot event is newer than all others, the query of LatestRestorable selects it. |
| `Rollback.UndoAmongOthers` | shell/internal/shell/builtin_history.go:272-285 | One undo within a rollback succeeds, and puts on each watched path what its command left there, or else what was there before it; so it is exact if and only if the command left nothing at a fresh target, whatever others did elsewhere. |
| `Rollback.RollbackLeaves` | shell/internal/shell/builtin_history.go:263-285 | For any sequence of covered commands since a checkpoint, each run to any point, when nothing that a command left is at or above a path an older one's rows name: the newest-first loop fails on no event, what was left stays as it is, and every other affected path is back to the checkpoint. |
| `Rollback.RollbackExact` | shell/internal/shell/builtin_history.go:263-285 | Under the same condition every affected path is back to its value at the checkpoint if and only if every command is settled. |
| `Rollback.SettledApart` | shell/internal/shell/builtin_history.go:263-285 | That condition holds whenever all commands but the oldest are settled. |
| `Rollback.GuardIff` | shell/internal/history/snapshot.go:307-336 | Where an older row does name a file that is left: the row of a removed or moved file fails, changing nothing, exactly when the bytes differ; a row of overwritten bytes puts them back over it. |
| `Rollback.BelowFileFails` | shell/internal/history/snapshot.go:319-330 | No row below a file that is left can be restored. |
| `Rollback.LeftoverMeetsOlder` | shell/internal/shell/builtin_history.go:272-285 | A file a is removed, and a copy of another file to a stops after part of it, both recorded, covered and run with nobody else writing: the rollback fails on the removal and changes nothing, and is exact without failure if and only if the part equals what was removed. |
| `History.History.Before` | shell/internal/history/interceptor.go:121-170 | Records what the pipeline will touch as one event and keeps its id: without mv the paths of the rows are exactly the trees of the arguments its stages touch, with mv exactly the pairs of its mv stages have a row with a target; redacts a tainted line; a harmless pipeline changes nothing. |
| `History.History.SaveTargets` | shell/internal/history/interceptor.go:136-147 | Saves every mv pair, or without an mv stage every target of the destructive stages, named by the arguments of the pipeline. |
| `History.ArgumentsRecorded` | shell/internal/history/interceptor.go:136-147 | Whatever rows a pipeline's command records, they are those of its arguments, found by position. |
| `History.History.SnapshotMoves` | shell/internal/history/interceptor.go:137-141 | Collects the rows of every mv pair, in order. |
| `History.History.After` | shell/internal/history/interceptor.go:176-185 | Finishes the event Before opened, once. |
| `History.History.SplitDirsAndFiles` | shell/internal/history/interceptor.go:294-311 | Partitions the rows into directory markers and file rows, each in order. |
| `History.History.Replay` | shell/internal/history/interceptor.go:191-214 | RestoreEvent on the disk is the restore of the value model. |
| `History.History.LatestRestorable` | shell/internal/history/store.go:542-582 | Of what its query selects from the log, answers the newest finished event exactly when some row of it has bytes saved. |
| `History.History.Undo` | shell/internal/shell/builtin_undo.go:20-44 | Refuses arguments with code 2; else replays that event, and exits 0 exactly when there was one and all of it was restored. |
| `History.History.HistoryRollback` | shell/internal/shell/builtin_history.go:248-291 | Code 2 on wrong usage, 1 without the checkpoint; else restores every event of the log's answer in the order given, goes on past failures and counts both kinds. |
| `History.UndoAfterCommand` | shell/internal/shell/builtin_undo.go:20-44 | From the log alone, with increasing timestamps: undo right after a covered command picks that command's event with its exit code and time. When it recorded a regular file, undo succeeds, and the disk is as before if and only if every fresh target is settled; otherwise undo reports nothing to do and changes nothing. |
| `History.RestorableIffFile` | shell/internal/history/store.go:566-580 | A row of a complete record can be restored if and only if it is of a regular file. |
| `History.EmptyDirNotUndone` | shell/internal/history/store.go:566-580 | The rm -r of an empty directory is recorded and could be restored, but undo finds nothing with bytes and leaves the directory gone. |
| `History.RmLoggedIff` | shell/internal/history/store.go:359-367 | An rm is recorded, and so can be undone, if and only if no target is named twice or, existing, lies below another; otherwise the log stays as it was. |
| `History.RollbackCorrect` | shell/internal/shell/builtin_history.go:263-285 | From the log alone: EventsSinceCheckpoint answers finished snapshot events newer than the checkpoint, and replaying whatever it answers restores every event when nothing that a command left is at or above an older row's path, and every affected path if and only if every command is settled. |
| `Detect.ExtractFileArgs` | shell/internal/history/detect.go:141-169 | The flag loop with its two flags answers, in order, exactly the arguments that come after the option-ending "--" or are neither a flag nor a flag's value. |
| `Detect.FileArgsArePaths` | shell/internal/history/detect.go:141-169 | The recursive reading of that loop agrees with the definition by position. |
| `Detect.RenameTargets` | shell/internal/history/detect.go:109-130 | (s, d) is answered if and only if in some mv stage d is the last path argument and s one before it. |
| `Detect.MovedMembers` | shell/internal/history/detect.go:109-130 | The same of the pairs taken stage by stage. |
| `Detect.TargetPaths` | shell/internal/history/detect.go:66-99 | In a pipeline without mv, a is answered if and only if a stage touches it: a path argument of rm, rmdir, unlink or srm, one of shred or truncate that is no value of their flags, or the non-empty rest of an of= of dd. |
| `Detect.TakenTouched` | shell/internal/history/detect.go:66-99 | The same of the targets taken stage by stage. |
| `Detect.DestructiveIff` | shell/internal/history/detect.go:51-58 | A pipeline is destructive if and only if a stage is named as one of the eight commands. |
| `Detect.AfterDashDash` | shell/internal/history/detect.go:141-169 | The first "--" that no flag takes as its value ends the options: everything after it is a path, and before it nothing that looks like a flag is one. |
| `History.NoMvNoPairs` | shell/internal/history/interceptor.go:318-328 | A pipeline without mv has no rename pairs, so the two ways of saving never overlap. |
| `PluginDemux.Collect` | shell/internal/cache/plugin.go:244-305 | The receive loop answers what the frames give: for Infer the first frame that is no token or pong decides, for Embed the first frame; a completion answers its invocation, or when that is empty the tokens' data joined in order; a failure its error, and -32004 NotImplemented for Embed only; a non-empty embedding its vector; no deciding frame a closed stream. |
| `PluginDemux.SequentialGives` | shell/internal/cache/plugin.go:244-305 | The same of the fold of any frames. |
| `PluginDemux.FoldAbsorbs` | shell/internal/cache/plugin.go:244-305 | Once a frame ends a call, later frames make no difference. |
| `PluginDemux.InvStep` | shell/internal/cache/plugin.go:166-202 | Every step of caller, child or reader keeps each caller's taken, queued and coming frames equal to its own frames in the stream. |
| `PluginDemux.DemuxRefinesFold` | shell/internal/cache/plugin.go:217-306 | In every reachable state a call that returned, not cancelled and written successfully, returned exactly what its own frames in stream order give, with stream-closed only once the reader has ended. |
| `PluginDemux.NoSendOnClosed` | shell/internal/cache/plugin.go:170-200 | The reader never sends on a closed channel. |
| `PluginDemux.EndedForever` | shell/internal/cache/plugin.go:166-180 | Once the reader has ended, no continuation adds a frame to any call, so a closed stream stays closed. |
| `PluginDemux.SendCompletesIff` | shell/internal/cache/plugin.go:189-193 | A send in progress is got out of by some continuation if and only if the channel has room or its caller still waits; then at most one receive comes first. |
| `PluginDemux.BoundedStep` | shell/internal/cache/plugin.go:189-193 | Every step keeps each channel within its capacity, and what its caller took, what waits and what is coming the first of its own frames. |
| `PluginDemux.ShortAnswersComplete` | shell/internal/cache/plugin.go:217-399 | While no more frames came for an id than its channel holds (16 for Infer, 4 for Embed), a send for it can complete. |
| `PluginDemux.WedgeReachable` | shell/internal/cache/plugin.go:189-193 | One frame more than the channel of a cancelled Infer or Embed call holds leaves the reader blocked for good, although the comment calls the send non-blocking. |
| `PluginDemux.WedgeIff` | shell/internal/cache/plugin.go:189-193 | The reader can be wedged by at most n frames for one call if and only if n is more than 16 for Infer, or 4 for Embed. |
| `IntentCache.Store.Lookup` | shell/internal/cache/store.go:137-177 | Finds the row of the normalized intent and OS; one query more, and one hit more there and in that row, or one miss more; nothing else changes. |
| `IntentCache.Store.WriteWithSource` | shell/internal/cache/store.go:210-251 | Refuses empty fields; else the one row has invocation, source, embedding and the confidence brought into 0..1, and an old row keeps its text and hits. |
| `IntentCache.Store.LookupNearest` | shell/internal/cache/store.go:307-359 | A row of that OS of maximal similarity at or above the threshold, whatever the row order; none exactly when there is none. |
| `IntentCache.Store.Clear` | shell/internal/cache/store.go:418-434 | Empties the rows and the counters. |
| `IntentCache.Cache.Resolve` | shell/internal/cache/cache.go:176-271 | Over any answers of bundle and plugin: a stored key hits; a missing one takes the bundle's entry without the plugin; else a candidate of maximal similarity, stored under the new key with the query's vector, without Infer; else Infer. Each tier with its outcome, the plugin calls made, the row stored and the counters. |
| `IntentCache.ResolvesByTiers` | shell/internal/cache/cache.go:176-271 | Every outcome the value model allows is that of the first tier that applies. |
| `IntentCache.NeverCostsTwice` | shell/internal/cache/cache.go:176-271 | Once a resolve succeeds, every later resolve of the same normalized intent and OS returns the same invocation without Embed or Infer, until a clear. |
| `IntentCache.Provenance` | shell/internal/cache/cache.go:193-270 | In every reachable store each invocation was once given for that same OS, for a key that was missing then, by the community bundle or, when that had no entry, by Infer, even after chains of similarity promotions. |
| `IntentCache.CountersConserved` | shell/internal/cache/store.go:157-175 | In every reachable store hits and misses add up to the queries, and the rows' hit counts to the hits. |
| `Similarity.Cosine` | shell/internal/cache/similarity.go:20-36 | 0 for unequal lengths or a zero vector, else the dot product over the product of the magnitudes; always in [-1,1], and 1 for a non-zero vector with itself. |
| `Similarity.CauchySchwarz` | shell/internal/cache/similarity.go:24-35 | The squared dot product never exceeds the product of the squared magnitudes, for vectors of any length. |
| `RankFusion.ReciprocalRankFusion` | shell/internal/history/search_semantic.go:170-199 | A repetition-free permutation of the union, by descending score and then first appearance. |
| `RankFusion.FusionUnique` | shell/internal/history/search_semantic.go:186-197 | The order is total, so there is only one such permutation. |
| `RankFusion.FuseWithEmpty` | shell/internal/history/search_semantic.go:170-199 | Fusing with an empty list returns the other list unchanged. |
| `RankFusion.Pareto` | shell/internal/history/search_semantic.go:170-199 | An id ranked no worse in each list, absence last, and better in one comes first. |
| `RankFusion.Dominance` | shell/internal/history/search_semantic.go:170-199 | In lists shorter than k+2 every id of both lists precedes every id of one. |
| `RankFusion.DominanceIff` | shell/internal/history/search_semantic.go:170-199 | That bound is tight: it holds for lists up to n long if and only if n < k+2. |
| `RankFusion.TruncationKeepsBoth` | shell/internal/history/search_semantic.go:148-151 | Below that bound truncation to the limit keeps every id found by both searches. |
| `RankFusion.HybridSearch` | shell/internal/history/search_semantic.go:107-153 | An error for an empty query or a failing keyword search; the keyword result when there is no semantic answer; else live ids of either search without repeats, best score first, at most the limit (50 by default), and a live id is left out only when as many ids as the limit come before it; up to limit 61 every live id found by both is there. |
| `RankFusion.CutIsBestFirst` | shell/internal/history/search_semantic.go:148-153 | The live part of a cut fusion is such an answer. |
| `RankFusion.LoadEvents` | shell/internal/history/search_semantic.go:222-240 | Exactly the ids that still exist, in the order given. |
| `RankFusion.KeptIsLivePart` | shell/internal/history/search_semantic.go:222-240 | The same of the recursive reading. |
| `Reindex.Worker.Upsert` | shell/internal/history/vector_store_chromem.go:154-196 | Vector first, then meta row, each a write that a crash may prevent. |
| `Reindex.Worker.Delete` | shell/internal/history/vector_store_chromem.go:241-260 | Collection first, then meta row. |
| `Reindex.Worker.SelectPending` | shell/internal/history/reindex.go:106-135 | Exactly the untainted events, each once; which of them are current is decided row by row. |
| `Reindex.Worker.ReindexRow` | shell/internal/history/reindex.go:137-173 | One row: skip when current, otherwise delete what is stale and embed. |
| `Reindex.Worker.Run` | shell/internal/history/reindex.go:57-175 | A whole run does to both stores what the recursive reading does, and returns its count. |
| `Reindex.CountIsStale` | shell/internal/history/reindex.go:137-174 | A run that no crash cuts counts exactly the pending events that were not current before it. |
| `Reindex.Worker.Append` | shell/internal/history/embed_writer.go:56-90 | The write path embeds a new untainted event under the active model. |
| `Reindex.AppendWorks` | shell/internal/history/embed_writer.go:70-89 | An append that no crash cuts leaves an untainted event embedded correctly, leaves both vector tables alone for a tainted one, and every other event's rows as they were. |
| `Reindex.CrashResumable` | shell/internal/history/reindex.go:106-174 | From a state where meta rows of the active model tell the truth, any reindexes and appends cut between any two writes, mixed with purges, then one full run: every untainted event is embedded correctly and the next run returns 0. |
| `Reindex.RepairsIff` | shell/internal/history/vector_store_chromem.go:269-285 | From any state a full run puts every untainted event right if and only if no current meta row stood over a missing or wrong vector. |
| `Reindex.SwitchingResumableIff` | shell/internal/history/reindex.go:106-174 | With the model changing from run to run and every run cut anywhere: after a full run under one model an untainted event is embedded correctly under it if and only if no meta row of that model stood over a missing vector for it. |
| `Reindex.TornByCutDeleteIff` | shell/internal/history/vector_store_chromem.go:250-258 | How such a row comes about: a run under another model is killed between the two writes of a delete, and at no other point of that row's work. |
| `JobTable.JobTable.Add` | shell/internal/jobs/jobs.go:143-159 | Adds the job under the next id and moves current to prev. |
| `JobTable.JobTable.SetStatus` | shell/internal/jobs/jobs.go:256-278 | Sets status and exit code; a background job entering Done or Stopped queues one notice, or drops it when 32 are queued. |
| `JobTable.StatusGiven` | shell/internal/jobs/jobs.go:256-278 | The job and its notice carry the status and exit code given, the notice also its command line and flag; there is one exactly when a background job enters Done or Stopped; no other job changes. |
| `JobTable.JobTable.SetCurrent` | shell/internal/jobs/jobs.go:411-422 | Makes a live job current, and the old current prev. |
| `JobTable.JobTable.HighestId` | shell/internal/jobs/jobs.go:439-447 | The highest live id for any map order, 0 when there is none. |
| `JobTable.JobTable.SecondHighestId` | shell/internal/jobs/jobs.go:451-463 | The second highest live id for any map order, 0 with fewer than two jobs. |
| `JobTable.JobTable.Reap` | shell/internal/jobs/jobs.go:318-343 | Removes exactly the Done jobs and repairs current and prev. |
| `JobTable.JobTable.PendingNotices` | shell/internal/jobs/jobs.go:377-387 | Drains the queue in order. |
| `JobTable.JobTable.DrainJobNotices` | shell/internal/shell/jobs_dispatch.go:60-77 | Prints the queued notices, then evicts the Done jobs. |
| `JobTable.Sort` | shell/internal/jobs/jobs.go:348-371 | Ascending, and a permutation. |
| `JobTable.JobTable.List` | shell/internal/jobs/jobs.go:348-371 | Every live job once, by ascending id, with exactly one + and at most one - when not empty. |
| `JobTable.OneOfEach` | shell/internal/jobs/jobs.go:426-435 | A listing of a table that keeps the invariant has exactly one + and at most one -. |
| `JobTable.ReapKeepsInv` | shell/internal/jobs/jobs.go:318-343 | Eviction keeps the table invariant. |
| `JobTable.PointersMeetIff` | shell/internal/jobs/jobs.go:318-343 | While jobs are left, an eviction brings current and prev to the same job if and only if they were the same and it stays, or current stays as the second highest and prev goes, or current goes and prev stays as the highest. |
| `JobTable.MinusIff` | shell/internal/jobs/jobs.go:426-435 | A listing shows a - if and only if prev is set and is not current. |
| `JobTable.CurrentCanBePrev` | shell/internal/jobs/jobs.go:318-343 | Of three jobs with the first made current, evicting the third leaves two with both pointers at the first, and a listing without a -. |
| `JobTable.ThirdDoneIs` | shell/internal/jobs/jobs.go:143-159 | Three Adds, SetCurrent(1) and SetStatus(3, Done) lead to that table. |
| `JobNotices.TableAlwaysOk` | shell/internal/jobs/jobs.go:143-159 | Under every interleaving: ids are keys below the next id, the table is empty exactly when current is 0, current and prev are live or 0, prev is set with two or more jobs. |
| `JobNotices.ReapedJob` | shell/internal/jobs/signals_unix.go:200-243 | A reaped child's job becomes Done with its exit code or 128 and the signal, Stopped, or Running, with a notice of exactly that. |
| `JobNotices.OnlyEvictionMerges` | shell/internal/jobs/jobs.go:411-422 | No action but an eviction brings current and prev to the same job. |
| `JobNotices.NoticesConserved` | shell/internal/jobs/jobs.go:256-278 | Under every interleaving the background transitions into Done or Stopped equal the notices printed, queued, about to be sent and dropped. |
| `JobNotices.DropsOnlyWhenFull` | shell/internal/jobs/jobs.go:268-276 | A notice is dropped only with 32 queued. |
| `JobNotices.EvictionLosesNothing` | shell/internal/shell/jobs_dispatch.go:60-76 | A transition's notice stays accounted for in every later state, evicted job or not. |
| `Environment.Env.Set` | shell/internal/env/env.go:57-70 | Replaces the first entry of the name in place or appends one; fails on the empty name only. |
| `Environment.Env.Get` | shell/internal/env/env.go:74-85 | The value of the first entry of the name. |
| `Environment.Env.Unset` | shell/internal/env/env.go:88-99 | Removes the first entry of the name. |
| `Environment.SetPuts` | shell/internal/env/env.go:57-70 | Setting replaces the first entry of the name where it stands, or puts a new one last, and keeps every other entry in its place. |
| `Environment.UnsetDrops` | shell/internal/env/env.go:88-99 | Unsetting takes out the first entry of the name and nothing else. |
| `Environment.Env.Expand` | shell/internal/env/env.go:134-232 | The rune loop and its fast path compute the expansion of the recursive reading, which the next rows pin. |
| `Environment.ExpandName` | shell/internal/env/env.go:214-224 | After any plain text, and between double quotes, $name gives the variable's value, or nothing when it is unset, and the rest is expanded on its own; the rest must not go on with a name character. |
| `Environment.ExpandBraced` | shell/internal/env/env.go:191-213 | The same of ${name} before any rest. |
| `Environment.ExpandBadBraces` | shell/internal/env/env.go:191-213 | Braces around what is no name stay as they are. |
| `Environment.ExpandStatus` | shell/internal/env/env.go:188-206 | $? and ${?} give the exit code in decimal: digits without leading zeros, after a minus sign if negative, that read back as it. |
| `Environment.ItoaIsDecimal` | shell/internal/env/env.go:188-190 | The printed exit code is the decimal numeral of it. |
| `Environment.ExpandLoneDollar` | shell/internal/env/env.go:180-186 | A dollar that no name, brace pair or question mark follows stays. |
| `Environment.ExpandSingle` | shell/internal/env/env.go:162-175 | Text between single quotes stays, whatever it is. |
| `Environment.SetExpands` | shell/internal/env/env.go:57-85 | After a name is set, $name gives the value that was set. |
| `Environment.FromSlice` | shell/internal/env/env.go:38-52 | Nameless entries are skipped and later duplicates overwrite. |
| `Environment.GetAfterFromSlice` | shell/internal/env/env.go:38-52 | After FromSlice every name reads what its last entry says. |
| `Environment.GetAfterUnsetIff` | shell/internal/env/env.go:88-99 | An unset name reads nothing if and only if at most one entry carried it. |
| `Environment.UnsetOther` | shell/internal/env/env.go:88-99 | Unsetting a name leaves what every other name reads. |
| `Environment.SetKeepsOneEach` | shell/internal/env/env.go:57-70 | Setting a name without = keeps at most one entry for each name. |
| `Environment.UnsetKeepsOneEach` | shell/internal/env/env.go:88-99 | Unsetting keeps at most one entry for each name. |
| `Environment.FromEntriesOneEach` | shell/internal/env/env.go:38-52 | A table built by FromSlice has at most one entry for each name. |
| `Environment.GetAfterSet` | shell/internal/env/env.go:57-85 | A set name reads back, and setting it changes no other name's value when neither contains =. |
| `Environment.PlainUnchanged` | shell/internal/env/env.go:134-150 | Text without dollars and quotes is unchanged, so the fast path is right. |
| `Parser.Tokenize` | shell/internal/parser/parser.go:159-220 | The rune loop computes the tokens, or the unterminated-quote error, of the recursive reading, which `TokensIff` pins. |
| `Parser.Parse` | shell/internal/parser/parser.go:67-130 | Background marker, stages and every syntax error as the recursive reading has them, which `ParseIff` and `StagedErrors` pin. |
| `Quoting.ExpandKeepsPrinted` | shell/internal/env/env.go:134-232 | A printed pipeline survives expansion unchanged under any environment and exit code. |
| `Quoting.PrintedTokens` | shell/internal/parser/parser.go:159-220 | A printed pipeline is read as its own words, pipes and marker. |
| `Quoting.RoundTrip` | shell/internal/parser/parser.go:67-130 | Printing any non-empty pipeline of arbitrary words, expanding and parsing gives the pipeline back with its background flag. |
| `Grammar.TokensIff` | shell/internal/parser/parser.go:159-220 | A line is read as some tokens if and only if it spells them: words made of bare characters and of text between equal quotes, white space, pipes and ampersands. |
| `Grammar.SpelledIsRead` | shell/internal/parser/parser.go:159-220 | Every spelling is read as what it stands for, and with a quote after it that is never closed as that quote's error. |
| `Grammar.StagedIff` | shell/internal/parser/parser.go:67-130 | The parser answers a pipeline if and only if the tokens are that pipeline's words with a pipe between stages and its marker at the end. |
| `Grammar.StagedErrors` | shell/internal/parser/parser.go:79-120 | An ampersand before the last token, a lone ampersand, and a pipe that is first, last or next to another each give their error, if and only if; no token gives the empty pipeline. |
| `Grammar.ParseIff` | shell/internal/parser/parser.go:67-130 | A line parses to a pipeline if and only if it spells that pipeline's tokens, and to nothing if and only if it spells none. |
| `Grammar.LeftOpenIff` | shell/internal/parser/parser.go:180-206 | A line gives an unterminated-quote error if and only if it is a spelled part and then a quote of that kind that is never closed. |
| `PersonaConfig.Scan` | shell/internal/persona/config.go:130-150 | The writer's scan finds the first active key in force in a persona section, or else the first persona header. |
| `PersonaConfig.MergeActivePersona` | shell/internal/persona/config.go:122-176 | The three-case rewrite: the lines above the place, the written line, the lines below it. |
| `PersonaConfig.ReadText` | shell/internal/persona/config.go:40-67 | The reader's loop finds the value of the first active key in force, unless an over-long line stops it first. |
| `PersonaConfig.HandHeader` | shell/internal/persona/config.go:45-48 | A section name in brackets is read as that section, with any white space around both. |
| `PersonaConfig.HandSetting` | shell/internal/persona/config.go:53-66 | A key and a value around the first = are read with any white space around both: a value not in double quotes as it stands, one in double quotes without them. |
| `PersonaConfig.HandWritten` | shell/internal/persona/config.go:40-67 | A file written by hand: an unquoted active line, spaced at will, after a [persona] header and any comments and other settings, is what the reader finds unless a line up to it is over-long. |
| `PersonaConfig.Files.WriteActivePersona` | shell/internal/persona/config.go:80-110 | Rewrites or creates the one file of that home, and fails on an empty home or name only. |
| `PersonaConfig.Files.ReadActivePersona` | shell/internal/persona/config.go:29-68 | Reads that file, or nothing. |
| `PersonaConfig.EscapedIff` | shell/internal/persona/config.go:123 | Quoting leaves a name as it is exactly when every character of it prints as itself. |
| `PersonaConfig.MergedLines` | shell/internal/persona/config.go:152-175 | The rewritten text, split again, has the written line exactly where the reader will look. |
| `PersonaConfig.ReadAfterWriteIff` | shell/internal/persona/config.go:40-67 | Reading after a write gives the quoted name if and only if no line up to the written one has 65536 bytes or more; otherwise nothing. |
| `PersonaConfig.ValidNameReadBackIff` | shell/internal/persona/config.go:40-67 | For a valid name the name itself comes back if and only if every existing line before the written one is shorter than 65536 bytes. |
| `PersonaConfig.LongLineHidesWrite` | shell/internal/persona/config.go:40-42 | A text of one line of n bytes: a name written to it reads back if n is below 65536, and is lost on the reader otherwise. |
| `PersonaConfig.FreshIsMerged` | shell/internal/persona/config.go:94-103 | The file created when there is none is the rewrite of its title line. |
| `PersonaConfig.FreshReads` | shell/internal/persona/config.go:94-103 | A valid name always reads back from the file created when there is none. |
| `PersonaConfig.WriteTwice` | shell/internal/persona/config.go:122-176 | The second of two writes wins and leaves no trace of the first. |
| `PersonaConfig.OtherLinesKept` | shell/internal/persona/config.go:152-175 | One line replaced, one line put after the header, or the text extended at its end; every other line keeps content and order. |
| `PersonaConfig.OtherKeysKept` | shell/internal/persona/config.go:70-79 | A write changes nothing the file says for another key or another section. |

## Left out

- SQLite, FTS5, the chromem collection, JSON and gob: tables are maps and sequences, a transaction is all or nothing, and a query is a predicate on its possible answers.
- Digests: SHA-256 is taken to be collision-free, and `makeSnapshotDir` to return a fresh name.
- The snapshot root: it lies apart from everything that a command touches.
- File modes, times, symbolic and hard links, and I/O failures while a snapshot is taken or put back, so the skip reasons mkdir-failed and copy-failed do not occur.
- The order of `filepath.WalkDir`: left open; the results hold for every order.
- `ignore.Match`, `canonicalize`, event ids and the clock: parameters.
- Commands that change a file in place (truncate, dd, shred): their snapshot is taken, but undoing them meets the conflict guard; the undo theorems are about rm and mv.
- The other destructive stages of a pipeline with an mv stage: `Before` saves nothing for them (shell/internal/history/interceptor.go:142), and `Commands.Mv` takes no step for them.
- The `restore` built-in beyond `SnapshotsForPath`, and printing in `history`.
- Signatures: `Finalize` changes signed fields without signing again, so no claim is made that stored events verify.
- Rollback.RollbackExact: does not give the final state of a rollback in which something a command left is at or above a path that an older row names; `GuardIff` and `BelowFileFails` say what such a row does, and `LeftoverMeetsOlder` shows both outcomes.
- `undo`, `history rollback` and the queries behind them when the store cannot be read.
- Liveness of plugin calls: a caller that registers after the reader ended is never woken by it, and the reader may be blocked for good; only returned calls are described.
- PluginDemux.DemuxRefinesFold: ids are numbers rather than their decimal strings, and the child is assumed to answer only requests that it was sent.
- Start, Close and the process behind the plugin: foreign calls.
- Similarity.Cosine: does not model floating point; the square root is an exact parameter and numbers are reals.
- IntentCache.Cache.Resolve: does not model the system prompt put before the intent, which only changes what `Infer` answers; the threshold is fixed per run.
- Malformed embedding blobs and vectors of a wrong dimension.
- `sort.Slice` is rendered as insertion; `RankFusion.FusionUnique` shows that the order decides the result.
- RankFusion.HybridSearch: does not model how the two searches find their hits; their answers are parameters that have no repeats and respect the limit.
- Processes, terminals, signals and polling behind `fg`; the reaper's lookup by pid and its status change are separate steps, so any id can turn up.
- `Find` for job specifications, `AddForeground`, `IsForeground`, and the text of a listed line.
- Environment.Env.Expand: characters are Unicode scalar values; bytes that are not UTF-8 are not modelled.
- Command substitution, braces, aliases and history expansion.
- PersonaConfig.MergeActivePersona: which characters beyond ASCII Go prints unquoted is a parameter; texts are valid UTF-8; the file modes and the I/O errors of reading and writing are not modelled.
- Migration, cryptography, the line editor, themes, prompts, telemetry and installers.

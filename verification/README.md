# A verified model of the operations console's durable state

The console keeps state on disk and in SQLite while it is interrupted, retried and used by several people at once.
This project models the parts where that is hardest to get right and proves what they promise:

| file | what it models |
|---|---|
| `Text`, `Tables` | splitting, joining and replacing text; adding up tables keyed by bucket |
| `LogLines`, `LogStats`, `LogMeaning`, `TopPaths`, `LogScan` | the incremental access-log scanner: cursors, chunked reads, one transaction per chunk, the lossy path table |
| `PathNames` | collapsing request paths |
| `Trees`, `IndexNames`, `GitSnapshots`, `GitRepository`, `CopySnapshots` | snapshots of a project tree in a shared Git repository or as a copy, index entries as text, and restoration |
| `ContentsFirst`, `Removal` | the walk that lists contents before their directory, as an iterator with its stacks, and the removal of what a restore does not keep |
| `Versions` | version numbers, the current version, and the requests that take turns on them |
| `JarRollback` | saving, deploying and restoring JAR files |
| `Upload` | resumable upload in chunks |
| `Fingerprint`, `ComposeHistory` | the 64-bit fingerprint; etags and revisions of the Compose file |
| `BackupSchedule`, `BackupReasons`, `Retention` | the daily database backup, why it starts one, and the pruning of old ones |
| `ImageMonitor` | the directory monitor that waits for files to settle |
| `HostInventory` | merging discovered nodes with hand-entered hosts |
| `ShellQuoting`, `MountNames`, `HostsFile` | quoting, decoding and editing text by whole-string passes |

Code that changes things step by step is a class or a method with loops, proved against a function or a predicate on
values; the properties are lemmas about those. What runs concurrently (version requests, the backup scheduler) is a
state machine over its steps, and its theorems speak of every run. Bytes are numbers below 256; the 64-bit
fingerprint and the saturating byte count are modelled with their width; a crash or a failed commit is an
explicit outcome.

## What turned out not to hold

Each of these is proved, most with the exact condition under which the code does what it is for; the two conditions
around midnight are sufficient, and each comes with a run that shows why it is there.

- **A log emptied in place** is seen empty by one poll and nothing is recorded, so that a later poll takes its middle
  for the rest of the old line (`LogScan.EmptiedFileIsMissed`; condition: `LogScan.PollIsFaithful`).
- **Names decide whether a snapshot is right** (`GitSnapshots.CommittedIsTree`). Replacing a file by a directory or the
  reverse is no problem, but a stale name with outer white space, such as "b ", is looked up trimmed and stays in every
  later commit; one that is a pattern takes kept files along; a name that Git protects is passed over; and a line break
  or a leading quote stops the snapshot (`IndexNames.PlainPruning`, `IndexNames.TrailingBlankStays`,
  `IndexNames.PatternTakesKept`, `GitRepository.Repository.Snapshot`).
- **A restore may leave what it should remove.** The walk that looks for extras lists contents first, and there a
  rejected ".git" or "lost+found" directory ends the listing of the directory it is in: an extra listed behind it
  stays, with all below it (`Removal.LateFileStays`; conditions: `Removal.ClosedKeepsExactly`,
  `GitRepository.Repository.Restore`, `CopySnapshots.RestoreCopy`; sufficient: no such directory in the live tree,
  `Removal.NothingIsLate`).
- **Attribute files convert.** Hashing stores files as they are, but a checkout applies the attributes it finds in the
  commit or the live tree, so that line ends, say, come back changed (`GitSnapshots.LineEndsAreConverted`; condition:
  `GitRepository.Repository.Restore`; sufficient: no attribute file in either, `GitSnapshots.UnconvertedIsSame`).
- **A missing attribute list** makes a restore delete everything below the top level that its walk comes to
  (`GitRepository.Repository.Restore`). The one other exception to an exact restore is something unknown to Git in the
  place of an empty directory.
- **An empty safety version** of a JAR rollback is restored as a directory and erases the project, but for what that walk misses
  (`JarRollback.EmptySafetyVersionErasesProject`; condition: `JarRollback.SafetyVersionPath`).
- **Symbolic links** are not part of a copied snapshot, so that restoring one deletes them
  (`CopySnapshots.SnapshotAndRestore`).
- **A publication is not one transaction**: a crash or a failing statement leaves two current versions, or none
  (`VersionProtocol.CrashTearsMarking`; condition: `VersionProtocol.AnyRun`).
- **A name that starts with a dot** passes for a numbered one: the path segment ".env" becomes ":id.env"
  (`PathNames.DotNameBecomes`).
- **A JAR rollback cannot be undone** if the name of an existing destination contains a backslash or ends in white
  space (`JarRollback.RollBackTwice`).
- **Unencoded white space**, such as a carriage return or an ideographic space, splits a mount table field
  (`MountNames.OtherSpacesSplit`; condition: `MountNames.EncodedIsOneField`).
- **A stale upload marker** and an older file of the same length pass for a finished upload
  (`Upload.StaleMarkerIsBelieved`).
- **An overwritten Compose file** goes unrecorded if it shares its etag with the latest revision or the process dies
  before the history is written, and a saved one if it dies between the two inserts (`ComposeHistory.SavedIsRecorded`,
  `ComposeHistory.DeathLosesOverwritten`, `ComposeHistory.DeathLosesSaved`).
- **Around midnight** the scheduler can start one date twice (`BackupSchedule.MidnightRepeats`,
  `BackupSchedule.StraddlingRepeats`).
- **A discovered host without a password** takes that of a hand-entered row but keeps its own user name, so that the
  two need not belong together (`HostInventory.LoginsCanMix`).
- **An empty address**, or one with a `#`, makes every update of the hosts file add another line, and a line that ends
  in two carriage returns loses one each time (`HostsFile.UpdateAgain`).

## Model

| member | source | states |
|---|---|---|
| LogLines.LinesResume | src/nginx_stats.rs:310-322 | reading in two parts gives the lines and the tail of the whole: only the unfinished tail has to be carried over |
| LogLines.CutAtLastNewline | src/nginx_stats.rs:318-324 | splitting only the part up to the last newline finds exactly the complete non-empty lines; the rest is the tail |
| LogLines.EmptyPieceGoes | src/nginx_stats.rs:324 | of the pieces exactly the empty ones are left out, and the others keep their order |
| LogMeaning.FoldCountsEvents | src/nginx_stats.rs:324-349 | in the one-pass count of any log a bucket exists exactly if it has events, and every column is the count, sum or collection of its events that the name says |
| LogStats.FoldConcat | src/nginx_stats.rs:323-351 | aggregating batches separately and adding the tables is the one-pass count of all lines |
| LogStats.MergeAndPruneApproximates | src/nginx_stats.rs:366-387 | one bucket's upserts and path deletion keep every count exact except paths, which are under-counts of at most 500 names and exact while 500 suffice |
| LogStats.BusiestPathsStay | src/nginx_stats.rs:366-387 | in the stored table of a bucket after a batch the paths that stay have the sum of both counts, and no path that goes had a higher one |
| LogStats.OtherBucketsStay | src/nginx_stats.rs:364-391 | a bucket that a batch does not touch stays as it is |
| LogStats.PersistReports | src/nginx_stats.rs:364-391 | committing a batch keeps all stored buckets such a report of the true counts |
| LogStats.StatusColumns | src/nginx_stats.rs:234-246 | the five status columns of a consistent aggregate add up to its requests |
| LogStats.FoldIsConsistent | src/nginx_stats.rs:324-347 | in every aggregate of every log status and device counts equal requests, and upstreams, paths, clients and timed requests do not exceed them, nor slow the timed ones |
| LogStats.StoredRowsBalance | src/nginx_stats.rs:356-391 | the same balance holds in every stored row, with at most 500 paths, after any number of batches |
| TopPaths.RankedCount | src/nginx_stats.rs:380-383 | the ranking is a total order, so LIMIT 500 keeps 500 rows if there are as many |
| TopPaths.LessIsTextOrder | src/nginx_stats.rs:380-383 | the order of equally frequent paths is that of the first character in which they differ, a prefix first |
| TopPaths.TopIsKept | src/nginx_stats.rs:380-383 | the deletion leaves 500 paths with unchanged counts: none that goes was requested more often than one that stays, nor as often with an earlier text |
| TopPaths.SmallTableIsKept | src/nginx_stats.rs:380-383 | a bucket with at most 500 paths loses nothing |
| TopPaths.DeleteOutranked | src/nginx_stats.rs:380-383 | deleting row by row comes to that |
| LogScan.FilesAddUp | src/nginx_stats.rs:281-283 | the statistics of all files together are those of one file plus those of the others, however their lines interleave |
| LogScan.PollIsFaithful | src/nginx_stats.rs:303-314 | after a complete poll the bytes behind the cursor are the file if and only if it still begins with what was read, or shrank to something not empty |
| LogScan.EmptiedFileIsMissed | src/nginx_stats.rs:303-321 | a log seen empty once is not recorded as truncated, and its new middle is joined to an old line |
| LogScan.PollBegins | src/nginx_stats.rs:293-308 | at the start of a poll nothing is pending but the tail of a generation that goes on |
| LogScan.PollGoesOn | src/nginx_stats.rs:315-322 | one more read continues the current generation: its lines and tail follow from the carried tail and the chunk alone |
| LogScan.StatsDb.Aggregate | src/nginx_stats.rs:323-349 | the loop over a batch computes the one-pass count of its non-empty lines that parse |
| LogScan.StatsDb.Draft | src/nginx_stats.rs:366-387 | the statements of a transaction give the persisted tables in whatever order the buckets come |
| LogScan.StatsDb.PersistBatch | src/nginx_stats.rs:356-391 | aggregates and cursor change together or not at all, and the stored statistics stay the report of everything behind the cursors |
| LogScan.StatsDb.Cut | src/nginx_stats.rs:317-350 | what is aggregated are the complete lines of the buffer, what is carried over is its tail |
| LogScan.StatsDb.Ingest | src/nginx_stats.rs:311-351 | a chunk is counted completely or not at all |
| LogScan.StatsDb.ReadToEnd | src/nginx_stats.rs:310-354 | any split into reads and any abandoned commit leave cursor, tail and statistics in step with a prefix of the file |
| LogScan.StatsDb.ScanFile | src/nginx_stats.rs:290-354 | a poll, complete or cut short, keeps the stored counters equal to a one-shot count of all complete lines behind the cursors, starts a new generation when the file shrank, and leaves the other files alone |
| LogScan.StatsDb.StoredTails | src/nginx_stats.rs:318-351 | no stored tail ever holds a line end |
| PathNames.SegmentIsFixed | src/nginx_stats.rs:573-603 | a rewritten segment is a fixed point of the rewriting |
| PathNames.WhatCollapses | src/nginx_stats.rs:573-603 | a segment changes exactly if it is an identifier (a number, a list of numbers, or a name whose stem is a number or at least 16 hexadecimal digits with any dashes) or starts with a dot |
| PathNames.ListBecomes | src/nginx_stats.rs:580-586 | a list of numbers becomes one mark |
| PathNames.NumberBecomes | src/nginx_stats.rs:577-595 | a number, with or without a suffix, becomes a mark and keeps the suffix |
| PathNames.HashBecomes | src/nginx_stats.rs:596-602 | so does a long hexadecimal stem |
| PathNames.DotNameBecomes | src/nginx_stats.rs:587-595 | a name that starts with a dot becomes the number mark followed by itself |
| PathNames.TileBySegments | src/nginx_stats.rs:556-558 | the tile prefix is a matter of whole segments |
| PathNames.NoNewTile | src/nginx_stats.rs:552-571 | rewriting never creates the tile prefix |
| PathNames.NormalizeIsIdempotent | src/nginx_stats.rs:552-571 | normalising is idempotent, the result is always shorter than 512 bytes, and it is a tile path only if the original was |
| PathNames.RewrittenIsUnique | src/nginx_stats.rs:561-569 | exactly one text has the rewritten pieces of a path, one by one, as its pieces |
| PathNames.WhatPathBecomes | src/nginx_stats.rs:552-571 | a path without leading slash becomes "/invalid-request", a tile path the tile mark, any other that text if it is shorter than 512, or "/oversized-path" |
| PathNames.Normalize | src/nginx_stats.rs:552-571 | so does the loop with its early exit: what comes out is the mark or the text with the rewritten pieces |
| Trees.Walk | src/backup.rs:912-932 | the pruned traversal finds exactly the entries without a skipped component |
| Trees.SkippedNames | src/backup.rs:924-932 | skipped are ".git" and "lost+found" in any mixture of small and capital letters, and no other name |
| ContentsFirst.StartIsAll | src/backup.rs:876-884 | the fresh iterator's two stacks stand for the whole recursive walk |
| ContentsFirst.WalkDir.Next | src/backup.rs:876-884 | the iterator yields an entry of what is left to report, and what is left then is decided by what the filter makes of it |
| ContentsFirst.WalkDir.NextAllowed | src/backup.rs:876-884 | behind the filter come unskipped entries only, each of what is left to report, until nothing is left |
| ContentsFirst.EntersDirectory | src/backup.rs:876-884 | entering a directory, which then waits for its contents, changes nothing of what is to be reported |
| ContentsFirst.DeferredStep | src/backup.rs:876-884 | a directory comes out after its contents, when its parent's listing is on top; rejecting it ends that |
| ContentsFirst.VisitIs | src/backup.rs:876-884 | what the walk reports of any rest of a directory: the unskipped entries behind no skipped directory, at any depth |
| ContentsFirst.VisitIsSeen | src/backup.rs:876-896 | of a tree it reports exactly the unskipped entries of which neither they nor a directory above them are listed behind a skipped directory of the same parent |
| Removal.FindExtras | src/backup.rs:874-897 | the filtered loop finds exactly those of them that are not kept, for any order in which directories are read |
| Removal.RemoveExtras | src/backup.rs:874-907 | deleting these in any order leaves exactly the entries that are not among them nor below one |
| Removal.KeptWithParents | src/backup.rs:874-907 | a visible entry survives exactly if it and every directory above it are kept or listed too late |
| Removal.SkippedSurvives | src/backup.rs:874-932 | a skipped entry survives exactly if the visible directories it hangs from are kept or listed too late |
| Removal.ClosedKeepsExactly | src/backup.rs:861-907 | with a parent-closed list every kept entry stays, and nothing else stays visible if and only if of every extra the walk finds it or an extra above it |
| Removal.NoDirectoriesKept | src/backup.rs:436-466 | without directories in the list only top-level entries stay, and what is below a top-level entry listed too late |
| Removal.NothingIsLate | src/backup.rs:876-884 | in a tree without skipped directories the walk comes to everything |
| Removal.BehindIsLate | src/backup.rs:876-884 | whatever is listed behind a skipped directory is never come to |
| Removal.LateFileStays | src/backup.rs:874-907 | a ".git" listed before a file that is not to be kept saves it |
| GitSnapshots.AddLinesReplaces | src/backup.rs:349-372 | an index update leaves the tree's lines, save those with protected names, and whatever of the old index is not in their way |
| GitSnapshots.CommittedIsTree | src/backup.rs:255-271 | whatever the index held, update and pruning leave exactly the tree if and only if no name of it is protected and the listed names take everything stale and nothing else |
| GitSnapshots.SameEntry | src/backup.rs:210-253 | an entry tells files by their data and whether anybody may execute them, and links by their target |
| GitSnapshots.PlainNamesAllow | src/backup.rs:255-271 | plain names, without outer white space, quotes, control characters and pattern syntax, meet that condition |
| IndexNames.PlainPruning | src/backup.rs:374-400 | as long as all names come out of the listing as plain pathspecs, pruning is right exactly if every stale name is listed and read as it is |
| IndexNames.TrailingBlankStays | src/backup.rs:383-393 | a stale "b " is looked up as "b" and stays |
| IndexNames.PatternTakesKept | src/backup.rs:391-393 | a stale name that is a pattern takes every kept entry it matches along |
| GitSnapshots.UnconvertedIsSame | src/backup.rs:434 | a checkout shows the files as stored if and only if it converts none, which holds if nothing but attribute files asks for conversions and neither the commit nor the live tree has one |
| GitSnapshots.LineEndsAreConverted | src/backup.rs:288-301 | with an attribute file in the commit, a file with line ends comes back with others |
| GitSnapshots.CheckoutTreeIsCheckout | src/backup.rs:434 | writing a commit's entries, as stored or converted, over any live tree has the properties the restore relies on |
| GitSnapshots.OccupiedIsBlocked | src/backup.rs:434-458 | recreating the directories fails exactly if something unknown to Git sits where the snapshot has an empty directory |
| GitSnapshots.RestoredIsSnapshot | src/backup.rs:434-468 | checkout, attributes and removal of extras together show the snapshot and nothing else, if and only if nothing was converted and every extra is found |
| GitSnapshots.OnlyExecBitsAdded | src/backup.rs:446-458 | what is shown is the snapshot itself but for the execute bits of directories, which are all set |
| GitSnapshots.SkippedSurvivesRestore | src/backup.rs:434-468 | a skipped entry of the live tree survives if the directory it hangs from is in the snapshot, and only then if every extra is found |
| GitSnapshots.AppliedIsLaid | src/backup.rs:434-458 | when the extras are looked for, what is not of the snapshot is what Git did not know of the live tree and what was not in the snapshot's way |
| GitRepository.Repository.ListAttrs | src/backup.rs:154-205 | the attribute list has exactly the visible entries with their modes |
| GitRepository.Repository.IndexLines | src/backup.rs:210-253 | the index lines are exactly the files and links with their contents and exec bits |
| GitRepository.Repository.UpdateInBatches | src/backup.rs:255-270 | batches of 4000 come to one overlay of the tree on whatever the index held; only an unreadable name stops them |
| GitRepository.Repository.PruneIndex | src/backup.rs:374-400 | exactly the entries matched by a listed, trimmed name that is not to be kept leave the index, in whatever order |
| GitRepository.Repository.Snapshot | src/backup.rs:144-285 | whatever earlier snapshots and restores left in the index, the commit is exactly the tree if and only if the names allow it, always if they are plain; it is refused only for an unreadable name, and no earlier snapshot changes |
| GitRepository.Repository.Checkout | src/backup.rs:434 | the index follows the commit, and the work tree does with its files converted as attributes ask |
| GitRepository.Repository.ApplyAttrs | src/backup.rs:436-458 | the attribute loop creates every directory of the snapshot, empty ones included, and sets the modes, or meets an obstacle |
| GitRepository.Repository.Restore | src/backup.rs:402-470 | restoring an exact commit gives back exactly its tree on all visible paths if and only if nothing unknown to Git is in the place of an empty directory, no file is converted and every extra, or one above it, is listed before the skipped directories beside it; without the attribute list only top-level files are left, and what the walk misses |
| CopySnapshots.ProjectDirSize | src/backup.rs:952-977 | the size shown for a project is the number of bytes of its visible files |
| CopySnapshots.CountBytes | src/backup.rs:800-849 | a copy counts the same bytes, saturating at 64 bits |
| CopySnapshots.MakeDirs | src/backup.rs:800-849 | creating missing directories fails only if something else is in the way |
| CopySnapshots.CopyTree | src/backup.rs:800-849 | a copy that fits gives exactly the overlay; one that does not fails or leaves a wrong node |
| CopySnapshots.WhatCopyLeaves | src/backup.rs:800-849 | a copied file replaces what was there, a directory is made where there was none, everything else stays |
| CopySnapshots.SameShapeMeans | src/backup.rs:800-859 | what a restored copy and its snapshot agree in: all entries, the data and modes of files, not the modes of directories |
| CopySnapshots.RestoreCopy | src/backup.rs:851-859 | restoring a copy shows exactly the copied tree if and only if it fits and every extra, or one above it, is found |
| CopySnapshots.SnapshotAndRestore | src/backup.rs:800-859 | copying a project away and back gives its files and directories exactly if they fit the live tree and every extra is found, and all of it exactly if it has no links |
| CopySnapshots.LinksAreNotCopied | src/backup.rs:836-846 | a copy is the whole visible tree exactly if there are no links |
| Versions.MaxOf | src/db.rs:241-248 | MAX of the numbers, 0 if there are none |
| Versions.VersionTable.NextVersionNo | src/db.rs:241-248 | the next number is new, positive and one above the highest |
| Versions.VersionTable.InsertVersion | src/db.rs:250-270 | an insert succeeds exactly if identifier and number are new, and then adds that row only |
| Versions.VersionTable.MarkCurrent | src/db.rs:272-286 | marking an existing version leaves exactly it current |
| VersionProtocol.InsertIsPossible | src/db.rs:241-270 | the number reserved at the beginning of an operation can still be inserted at its end |
| VersionProtocol.StepKeepsInv | src/api.rs:3079-3082 | every step of every operation keeps gate, lock, numbers and current version in order, and whoever is about to mark a version marks the one its request names |
| VersionProtocol.AnyRun | src/api.rs:3927-4007 | over any run, crashes and failing statements included: numbers are unique, strictly increase and never change, and whenever the database lock is free one version, none or several are current exactly as what broke off inside the lock since the last marking says |
| VersionProtocol.ReservationHolds | src/api.rs:3374-3444 | in any interleaving a reserved number is still the maximum plus one when it is used |
| VersionProtocol.InsertStores | src/api.rs:3262-3264 | the insert stores the version of the request under the reserved number, higher than all others, and changes no other row |
| VersionProtocol.MarkMakesCurrent | src/db.rs:272-286 | in any run the marking leaves exactly the published version current, or exactly the target of the rollback and not its safety version |
| VersionProtocol.OneCurrentWithoutCrash | src/api.rs:3262-3271 | without crashes and failing statements inside the lock exactly one version is current whenever the database lock is free: the one named by the last publication or rollback that finished its marking |
| VersionProtocol.MarkingRepairs | src/api.rs:3884 | whatever broke off before, after a finished marking the same holds again until something else does |
| VersionProtocol.CrashTearsMarking | src/api.rs:3262-3271 | a crash between the statements of a publication leaves two current versions or none, and so does a failure |
| JarRollback.BackupNamesDiffer | src/api.rs:3580-3610 | the names of saved files differ for different files |
| JarRollback.BackupNameIsSafe | src/api.rs:3580-3658 | and pass the check the restore applies to them |
| JarRollback.WhereJarsGo | src/api.rs:3556-3578 | a JAR goes to every mount of its file name, at an absolute host path or one below the project, and without a mount to "jars" if that is a directory, else to the top |
| JarRollback.BackupReplaced | src/api.rs:3580-3610 | every existing file at a destination, and no other, is saved under a name of its own, with its content |
| JarRollback.TargetsDrift | src/api.rs:3556-3578 | directories created by the deployment may redirect a JAR, but never onto an existing file that was not a destination before |
| JarRollback.DeployJars | src/api.rs:3660-3702 | a deployment overwrites existing files only at destinations, makes new ones only where a JAR may go and, if it succeeds, puts every JAR in all its places (under jars if that directory exists), save where a later one shares the destination |
| JarRollback.BackupDestinations | src/api.rs:3612-3638 | before a rollback every existing recorded destination is saved; the restore accepts the saved names exactly if no destination is named with a backslash or trailing white space |
| JarRollback.RestoreJarBackup | src/api.rs:3640-3658 | every saved file gets its content back and nothing else changes; a failure touches saved destinations only, and where all of them exist it succeeds exactly if the names are accepted and no copy breaks off |
| JarRollback.ReplaceIsUndone | src/api.rs:3398-3461 | replace, then roll back: every file that existed has its old content, however far the deployment got |
| JarRollback.ReplaceAndRollBack | src/api.rs:3398-3461 | the two requests one after the other: the rollback is never refused and brings every file back, even after a deployment that broke off inside a copy |
| JarRollback.RollbackIsUndone | src/api.rs:3788-3885 | rolling back to the safety version undoes the rollback on every file that existed, even one that failed half-way |
| JarRollback.RollBackTwice | src/api.rs:3788-3885 | the two rollbacks one after the other leave every file that existed as it was, or the second is refused, exactly for such a name |
| JarRollback.SafetyVersionPath | src/api.rs:3935-3940 | the safety version takes the JAR path exactly if one of the destinations existed |
| JarRollback.EmptySafetyVersionErasesProject | src/api.rs:3935-3984 | if none did, rolling back to it leaves nothing of the project but what backups skip and, only if there is a skipped directory, the top-level entries listed too late with all below them |
| Upload.Server.GetStatus | src/api.rs:2836-2878 | "complete" is reported exactly if the marker stands and the target is the source, or an older file of its length |
| Upload.Server.PutChunk | src/api.rs:2880-2938 | the part file is always a prefix of the source; a chunk is refused exactly for its size or offset; completion puts the source, byte for byte, in the target; a death anywhere keeps this |
| Upload.Follow | src/api.rs:2836-2938 | a client that follows the status ends, with the source in the target, unless the target is a directory, its patience runs out or a marker is stale |
| Upload.StaleMarkerIsBelieved | src/api.rs:2926-2929 | a death between marker and rename, over an older file of the same length, is taken for completion |
| Fingerprint.HashConcat | src/api.rs:2473-2504 | the fingerprint does not depend on how the file is cut into buffers |
| Fingerprint.XorBits | src/api.rs:2490-2491 | a bit is set in the exclusive or exactly if it differs in the two numbers |
| Fingerprint.StepIs | src/api.rs:2489-2493 | each step takes the byte in by exclusive or and then multiplies by 0x100000001b3 modulo 2^64 |
| Fingerprint.StepIsInjective | src/api.rs:2489-2493 | each step is injective in the 64-bit state and in the byte |
| Fingerprint.StepIsOnto | src/api.rs:2489-2493 | and every state has exactly one predecessor for every byte |
| Fingerprint.OneByteIsNoticed | src/api.rs:2473-2504 | two texts that differ in exactly one byte never have the same fingerprint |
| Fingerprint.CommonEndIsIrrelevant | src/api.rs:2473-2504 | texts with a common end collide exactly if the parts before it do |
| Fingerprint.Stamp | src/api.rs:2473-2504 | the read loop computes length and fingerprint of the whole file for any sizes of the reads |
| ComposeHistory.OneByteEditChangesEtag | src/paths.rs:208-215 | a one-byte edit always changes the etag |
| ComposeHistory.SnapshotRecords | src/api.rs:4256-4291 | after a disk snapshot the latest revision has the etag of the disk, and the text itself is recorded, as the baseline if it is the first and else as an external change, unless it was not and collides with the latest etag |
| ComposeHistory.SaveAnswers | src/api.rs:4328-4422 | each answer is given exactly if its check fails and those before pass; a request turned down, for its text, a conflict or a failed validation, leaves disk and history as they were, and no other text than that of the request is ever installed |
| ComposeHistory.SaveKeepsHistory | src/api.rs:4328-4422 | every request keeps the numbers 1..n and all existing revisions |
| ComposeHistory.SavedIsRecorded | src/api.rs:4328-4422 | after a successful save disk and latest revision hold the text, and the overwritten one is in the history, except exactly on an etag collision |
| ComposeHistory.UnchangedIsRecorded | src/api.rs:4364-4379 | saving what is there leaves it and makes sure of the latest etag |
| ComposeHistory.DeathLosesOverwritten | src/api.rs:4381-4398 | a death after installing the file leaves the history as it was |
| ComposeHistory.DeathLosesSaved | src/api.rs:4381-4398 | a death between the two inserts leaves the saved text unrecorded unless it was recorded before, the overwritten one recorded as ever |
| ComposeHistory.AtMostOneWins | src/api.rs:4328-4422 | of any number of saves with the same expected etag at most one changes the file, in any order and with any outcome, unless one brings a different text of that very etag |
| ComposeHistory.CollisionLetsTwoWin | src/api.rs:4354-4362 | with such a text two can |
| ComposeHistory.Project.SnapshotDisk | src/api.rs:4256-4291 | the branches of the disk snapshot as a step on the table |
| ComposeHistory.Project.SaveContent | src/api.rs:4328-4422 | the handler answers and leaves things as stated there, keeps the numbering, and records the saved text as the latest revision |
| BackupSchedule.StepKeepsInv | src/dbbackup.rs:944-1025 | what every step of scheduler, manual runs, settings, clock and restart keeps of dates, rows and lists |
| BackupSchedule.AnyRun | src/dbbackup.rs:944-1025 | over any run no backup starts before its time by the clock reading of its tick; and if lists are read on the day of the tick, no project is started twice for one date, interrupted starts apart |
| BackupSchedule.RepeatNeedsLaterRun | src/dbbackup.rs:965-998 | a repeated date needs a listed row dated later than the tick |
| BackupSchedule.MidnightRepeats | src/dbbackup.rs:954-998 | which happens: a run that starts one date twice |
| BackupSchedule.GateCheckSuffices | src/dbbackup.rs:979-998 | in runs whose passes do not straddle midnight, the second check starts no date that has a backup, be it manual and later than the list |
| BackupSchedule.StraddlingRepeats | src/dbbackup.rs:979-998 | in others it can |
| BackupSchedule.RestartRecovers | src/dbbackup.rs:945-951 | a restart takes the date from exactly the rows left running, which it marks as failed |
| BackupSchedule.RestartRedoes | src/dbbackup.rs:944-998 | the pass after it starts a project past its time exactly if its run was interrupted or it has none of that day |
| BackupReasons.StartsAreJustified | src/dbbackup.rs:954-998 | in any run each backup the scheduler starts has its reasons: a tick read the date and time, the list read then had its schedule on, past its time and not dated that day, and at the gate it was still on and not dated that day |
| BackupReasons.NothingIsPassedOver | src/dbbackup.rs:958-1000 | every schedule that is on is listed, every due one comes to the gate, and there every one still on and not dated that day is started |
| BackupReasons.SavingKeepsRecord | src/dbbackup.rs:761-764 | saving a schedule sets what is given and nothing that runs have recorded |
| BackupReasons.ManualRunIsDated | src/api.rs:5193-5252 | a run by hand is dated with the day on which it got the gate |
| BackupReasons.FinishTells | src/dbbackup.rs:780-795 | the end of a run is recorded as a success exactly if it was one, and the date stays |
| BackupReasons.RunningIsUnderWay | src/dbbackup.rs:945-1000 | in any run a row says "running" exactly while a backup of its project is under way, so that a restart finds those it interrupts |
| Retention.BackupRoot.List | src/dbbackup.rs:158-188 | the list has every backup once, newest first |
| Retention.BackupRoot.ApplyRetention | src/dbbackup.rs:846-862 | pruning removes scheduled backups of that service and database only, leaves as many as it may and none older than one it removes |
| Retention.PrunedKeepsNewest | src/dbbackup.rs:846-862 | a scheduled backup stays if and only if fewer than N of its kind are newer |
| Retention.OthersStay | src/dbbackup.rs:846-862 | a backup of another kind, service or database stays as it is |
| Retention.WhatCounts | src/dbbackup.rs:846-862 | what counts against the limit are the scheduled backups of that service and database |
| Retention.NewestSurvives | src/dbbackup.rs:846-862 | the newest always stays |
| Retention.PruneAgain | src/dbbackup.rs:846-862 | pruning twice is pruning once |
| ImageMonitor.SettledIsLatestStable | src/images.rs:517-548 | a file's settled signature is that of the latest listing that showed it unchanged, if it has been there since |
| ImageMonitor.WalkOne | src/images.rs:533-546 | the two tables decide about one file exactly as the history of listings does |
| ImageMonitor.Monitor.Poll | src/images.rs:526-547 | exactly the files stable for one poll and not settled with that signature are queued, each once; the tables follow the history, and a failed listing changes nothing |
| ImageMonitor.Monitor.constructor | src/images.rs:520-525 | files there at startup are the baseline; a failed listing counts as empty |
| ImageMonitor.SettledOrCandidate | src/images.rs:531-546 | after every poll each file there is either settled or a candidate with the signature it has |
| ImageMonitor.SameSignatureTwice | src/images.rs:533-546 | no signature is queued twice without a change or disappearance in between |
| ImageMonitor.StartupFilesStay | src/images.rs:517-525 | a file there at startup is never queued while it stays as it was |
| HostInventory.ManualRows | src/hosts.rs:674-680 | of the hand-entered rows exactly those at a discovered address on port 22 go, the others are untouched |
| HostInventory.NoDuplicatesLeft | src/hosts.rs:674-680 | afterwards none shares a discovered address |
| HostInventory.OtherRows | src/hosts.rs:635-681 | rows of no discovered node are untouched |
| HostInventory.LocalRowAfter | src/hosts.rs:608-621 | the machine's own row takes name, address, node and time from what it reports, and keeps port, login and creation time, or gets 22, "root", no password and now; no other row is touched |
| HostInventory.NoOtherNodeRows | src/hosts.rs:635-642 | no row comes of the machine itself as a node, nor of a node without an address |
| HostInventory.NodeRowAfter | src/hosts.rs:644-673 | the first node found at an address merges with the best hand-entered row there was, any later one with none |
| HostInventory.NodeRowContents | src/hosts.rs:644-673 | field by field: what was discovered is new, port and creation time stay, an empty user name or password is filled in, and a new row gets the login and creation time of the best hand-entered row there, or "root", none and now |
| HostInventory.NodePassword | src/hosts.rs:644-673 | the first node at an address has a password exactly if its row or a hand-entered one had |
| HostInventory.LatestPassword | src/hosts.rs:644-673 | and takes it from the hand-entered row updated last among those that have one |
| HostInventory.LoginsCanMix | src/hosts.rs:659-673 | a known node ends up with its own user name and another user's password exactly if it had none and the hand-entered row has one and a different name |
| HostInventory.SyncAgain | src/hosts.rs:608-683 | a second run changes nothing but timestamps if and only if no discovered node's row is left without a user name |
| HostInventory.SyncIsIdempotent | src/hosts.rs:608-683 | which holds if all rows have one |
| HostInventory.Inventory.Query | src/hosts.rs:644-658 | the query finds a row with a password, or else the latest, if there is any |
| HostInventory.Inventory.SyncInventory | src/hosts.rs:608-683 | the loop performs the specified steps for whatever the queries return, and leaves the machine's own row as stated |
| ShellQuoting.QuoteReadsBack | src/jar_store.rs:540-542 | a quoted value is read as exactly that value whatever stands before and after it |
| ShellQuoting.QuotedIsOneWord | src/hosts.rs:304-306 | reading a quoted value gives one word, the value |
| ShellQuoting.QuoteIsInjective | src/jar_store.rs:540-542 | different values are quoted differently |
| ShellQuoting.PieceIsRead | src/jar_store.rs:346-382 | plain words, quoted values and operators are read as themselves in any line |
| ShellQuoting.LoginShellReads | src/jar_store.rs:484-500 | the remote login shell passes the whole script, whatever it is, as one argument of sh -c |
| ShellQuoting.InstallIsRead | src/jar_store.rs:347-350 | the directory script is read as intended through both shells, for every path |
| ShellQuoting.DigestIsRead | src/jar_store.rs:363-369 | so is the digest pipeline |
| ShellQuoting.MoveIsRead | src/jar_store.rs:375-382 | so is the final move |
| MountNames.OctalIsTheCharacter | src/jar_upgrade.rs:1141-1147 | each code is the octal number of the character it stands for |
| MountNames.OnePassMore | src/jar_upgrade.rs:1141-1147 | a further replacement pass is one more escape known to the left-to-right decoder, because no earlier pass makes a backslash |
| MountNames.UnescapeIsDecode | src/jar_upgrade.rs:1141-1147 | the four passes are one left-to-right decoding, on every text |
| MountNames.UnescapeEncoded | src/jar_upgrade.rs:1141-1147 | they give back whatever was encoded |
| MountNames.EncodedIsOneField | src/jar_upgrade.rs:1127-1129 | an encoded name is a single field of its line exactly if it is not empty and has no white space but blank, tab and newline |
| MountNames.OtherSpacesSplit | src/jar_upgrade.rs:1127-1129 | a carriage return, a no-break space or an ideographic space splits it |
| HostsFile.UpdateZotHosts | src/api.rs:1320-1340 | filter, trimming loop and assembly compute the specified text |
| HostsFile.UpdateIsJoin | src/api.rs:1332-1339 | the new text is the kept lines, the entry and a final line end |
| HostsFile.NamesIsAlias | src/api.rs:1321-1330 | a line counts for the registry exactly if its name is a word of the line behind the first and before any comment, whichever |
| HostsFile.NamedLineGoes | src/api.rs:1320-1331 | such a line goes wherever it stands, and the others keep their order |
| HostsFile.EntryNames | src/api.rs:1321-1330 | the entry counts as one for the registry exactly if the address is there and starts no comment |
| HostsFile.UpdateAgain | src/api.rs:1320-1340 | updating is idempotent exactly if that holds and no kept line still ends in a carriage return |
| HostsFile.UpdateLeavesOneEntry | src/api.rs:1320-1340 | on other texts: one entry, last, and every line that does not name the registry in order, up to blank ones at the end |

## Left out

- Parsing one log line (user agents, timestamps, JSON) is a parameter from lines to optional events; request times are reals, so NaN and rounding are not modelled, and counters are unbounded.
- The counters of a scan result and the initialisation of cursors at the end of existing logs.
- Git itself is a content store with one index; object names are taken to be injective, and the store never to be garbage-collected: a checkout detaches the head, so that later commits hang from no branch. Path quoting by `ls-tree`, names that are not UTF-8 or contain a backslash, owners and groups are not modelled.
- Archives in tar and gzip, single-file Compose snapshots, progress messages, and the check for unsafe relative paths.
- The iterator of `ContentsFirst` follows the walkdir crate, version 2.5.0, whose source is not part of the repository. Walks descend into skipped directories when contents come first, and one that cannot be read makes a restore fail (src/backup.rs:886); errors while reading directories are not part of this model.
- Which conversions a checkout makes, and whether the configuration asks for some, is a parameter that depends on the commit, the live tree, the path and the data; hashing is taken to convert nothing, as in a bare repository without configured conversions.
- Deletions of extras and of pruned backups are assumed to succeed, and so is the listing of the index.
- Replaced JAR destinations are taken to be no links, and paths to be free of ".." aliases; services are not restarted in the model.
- Uploads of two clients to the same target name, and changes to the part file by others.
- Edits of the Compose file by other programs between the check under the gate and the installation; the environment file, which follows the same protocol.
- Deletion of projects and of schedule rows; database errors that the scheduler ignores.
- The copying loop sync_files with its counters, the cron rewriting of disable_legacy_nfs_cron and the hexadecimal helpers of the host table would only add easy members.
- CopySnapshots.RestoreCopy: takes a snapshot without links, which is the only kind a copy makes.
- GitRepository.Repository.UpdateIndex: a name that Git happens to read as another well-formed line, such as a whole quoted name, counts as unreadable, although Git then stores the other name.
- IndexNames.Prunes: whether a pathspec removes an entry is taken to depend on the two texts alone, and which names Git protects is a parameter.
- HostInventory.IsPick: rows that tie in the query may be returned in any order; the kind of a row is taken to agree with its identifier.
- ShellQuoting.Scan: expansions, redirections, here-documents and comments are outside the model and give no result, so nothing is claimed about scripts that use them unquoted.
- BackupSchedule.AnyRun: the clock is taken to be non-decreasing, as local time is not around a change of time zone.
- Cluster nodes arrive with the address already read from what they report; HTTP, sessions, SSH, Docker, k3s and psql are not modelled.

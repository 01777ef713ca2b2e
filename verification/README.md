# nfsync, modelled in Dafny

nfsync mirrors a source directory tree into a destination tree. An indexer
walks the source and emits one (source, destination) task per
non-directory entry. The dispatcher starts one `fsworker` goroutine per
task; a semaphore of `--threads` tokens (64 by default) bounds how many
work at once. For each task a worker:

- ensures the destination's parent directory exists;
- skips the file when the destination already has the same size and the
  same truncated checksum (MD5 of at most the first 1 MiB);
- otherwise claims the source path in a run-wide dedup set, opens the
  source, creates the destination and copies, retrying once.

Each worker holds a semaphore token while it runs.

This project models that core sequentially, over an abstract filesystem:

- `filesystem.dfy` (module `FileSystem`): paths as sequences of components.
  A filesystem is a map from path to bytes plus a set of directories.
  `MkdirAll` and `FileSize` are modelled on it.
- `checksum.dfy` (module `Checksum`): `maxHashBytes` and the truncated
  checksum `hash`. The digest (hex of MD5) is a parameter: an uninterpreted
  function from bytes to a string.
- `indexer.dfy` (module `Indexer`): `indexFs`. The walk is a sequence of
  entries (a visited path and whether it is a directory, or an access
  error). `IndexFs` is a loop proved against the specification `Index`:
  the tasks emitted before the first stopping entry, and whether the walk
  failed.
- `worker.dfy` (module `Worker`): the decision machine of `fsworker` as
  functions:
  - `CheckExisting`: the size and checksum comparison;
  - `Work`: directory, comparison, claim, then `Transfer`;
  - `Transfer`: open, create, copy;
  - `CopyWithRetry`: the two-attempt loop over a `Stream` that keeps the
    source offset and the bytes written between attempts.

  I/O outcomes the filesystem map does not decide are given as a `Faults`
  value: an injected failure per call, and the result of each copy attempt
  (completed, or broken after reading and writing some bytes). The log is a
  list of `Event`s, one per log line. `Backoff` stands for the one-second
  sleep.
- `sync.dfy` (module `Sync`): class `Syncer`. It holds the state
  `fsworker` updates in place:
  - the filesystem;
  - the claimed set (`procFs`);
  - the semaphore, as a token count against its capacity; the
    `Default` constructor gives it `DefConcurrentThreads` = 64 tokens;
  - the log.

  `FsWorker` takes a token, runs the early-return sequence and the
  `for i := 0; i <= 1` copy loop, and gives the token back. It is proved to
  leave exactly the state and log `Worker.Work` describes.
- `run.dfy` (module `Run`): the tasks of a run worked one after another,
  for the run-wide dedup properties.

Behaviour of the code that is easy to miss, and that the model follows:

- Every non-directory entry is emitted, symlinks included.
- The retry calls the copy again on the same open handles. It continues at
  the current offsets and does not restart the file. A first attempt that
  read bytes it never wrote therefore leaves a destination that differs
  from the source, even though the retry succeeds
  (`Worker.LostBytesSurviveRetry`) and success is logged
  (`Worker.TransferLogsOutcome`).
- A one-second sleep follows every failed attempt, the second included.
- The successful retry logs one attempt error line.
- Any error from the destination stat counts as "destination absent".

## Model

| member | source | states |
|---|---|---|
| FileSystem.ParentDir | nfsync.go:60 | the parent directory is the path without its last component |
| FileSystem.BlockedByFile | nfsync.go:61-65 | the case where os.MkdirAll fails because a regular file stands at the directory or an ancestor; its meaning is fixed by the ensures of FileSystem.MkdirAll and by FileSystem.MkdirAllKeepsWellFormed |
| FileSystem.MkdirAll | nfsync.go:61-65 | fails exactly on an injected fault or when a regular file stands at the directory or one of its ancestors; otherwise every prefix of the directory is a directory afterwards, no file changes, and only those ancestors are added |
| FileSystem.MkdirAllIdempotent | nfsync.go:61 | creating an existing directory tree again changes nothing |
| FileSystem.MkdirAllKeepsWellFormed | nfsync.go:61-65 | directory creation never makes a directory where a regular file stands, so files and directories stay disjoint |
| FileSystem.FileSize | nfsync.go:47-53 | a size exactly for an existing regular file without a fault, and it is the file's length |
| Checksum.HashedPrefix | nfsync.go:39 | the bytes hashed are a prefix of the contents, of length min(size, 1 MiB) |
| Checksum.TruncatedChecksum | nfsync.go:38-44 | a short file is digested whole (end of file is not an error); a long one only through its first 1 MiB |
| Checksum.Hash | nfsync.go:31-45 | an error exactly when the file cannot be opened or read; otherwise the digest of the first min(size, 1 MiB) bytes |
| Checksum.ChecksumDeterminedByHead | nfsync.go:39-44 | contents with the same hashed head have the same checksum |
| Checksum.ChecksumIgnoresTail | nfsync.go:39-44 | two contents of at least 1 MiB that agree on their first 1 MiB have the same checksum |
| Indexer.Rel | nfsync.go:145-149 | a relative path exactly when the root is a prefix of the path, and root + relative path is the path |
| Indexer.Join | nfsync.go:150 | Rel undoes Join |
| Indexer.Rebase | nfsync.go:145-150 | a destination exactly for paths under the source root; it has the same part below the destination root as the source has below the source root |
| Indexer.RebaseInjective | nfsync.go:145-150 | distinct source paths get distinct destinations |
| Indexer.Stops | nfsync.go:139-149 | the entries on which the walk callback returns an error: an access error, or a non-directory entry whose relative path fails; its properties are carried by Indexer.FirstStop, Indexer.FirstStopIs and Indexer.AbortIgnoresRest |
| Indexer.Emitted | nfsync.go:144-151 | the task the callback pushes for one entry; its properties are carried by Indexer.DirectoriesNotEmitted, Indexer.EmitSound and Indexer.EmitComplete |
| Indexer.Emit | nfsync.go:138-154 | the tasks pushed for a run of entries in walk order; its properties are carried by Indexer.EmitAppend, Indexer.EmitOnePerFile, Indexer.EmitSound and Indexer.EmitComplete |
| Indexer.Index | nfsync.go:138-157 | the specification of indexFs: the tasks before the first stopping entry and whether the walk failed; Indexer.IndexFs is proved equal to it, and Indexer.AbortIgnoresRest is stated about it |
| Indexer.FirstStop | nfsync.go:138-154 | the index of the first entry whose access or relative path fails, or the walk's length if there is none |
| Indexer.FirstStopIs | nfsync.go:138-154 | FirstStop is characterised by "no stop before k, a stop at k" |
| Indexer.EmitAppend | nfsync.go:138-154 | tasks follow walk order: the tasks of a concatenation are the tasks of its parts in order |
| Indexer.DirectoriesNotEmitted | nfsync.go:144 | a directory entry adds no task wherever it occurs |
| Indexer.EmitOnePerFile | nfsync.go:144-151 | in a walk without errors, exactly one task per non-directory entry |
| Indexer.EmitSound | nfsync.go:144-151 | every task comes from a non-directory entry and carries that entry's rebased destination |
| Indexer.EmitComplete | nfsync.go:144-151 | every non-directory entry under the root is emitted with its rebased destination |
| Indexer.AbortIgnoresRest | nfsync.go:139-149 | nothing after the stopping entry changes the tasks or the error |
| Indexer.IndexFs | nfsync.go:135-158 | the walk fails exactly when some entry stops it; the tasks are those of the entries before the first stop, in walk order |
| Worker.CopyWithRetry | nfsync.go:119-130 | the two-attempt copy loop on the same handles; its properties are carried by Worker.AtMostTwoAttempts, Worker.CopyLogsOnlyAttempts, Worker.NoRetryAfterSuccess, Worker.RetryContinuesAtOffsets, Worker.LosslessCopyIsExact and Worker.LostBytesSurviveRetry |
| Worker.Attempt | nfsync.go:120 | one copy call advances the source offset within the file, only appends to the destination, never writes more than it read, and on success drains the rest of the source |
| Worker.AttemptWritesSource | nfsync.go:120 | what an attempt appends, broken or not, is exactly the source's bytes from the offset |
| Worker.AttemptKeepsPrefix | nfsync.go:120 | an attempt that drops no bytes keeps the destination equal to the source up to the offset |
| Worker.AtMostTwoAttempts | nfsync.go:119-127 | at most two failed attempts, logged as attempts 1 and 2, each followed by the sleep; success exactly when one attempt completed |
| Worker.CopyLogsOnlyAttempts | nfsync.go:119-126 | the copy loop logs nothing but failed attempts and their sleeps |
| Worker.NoRetryAfterSuccess | nfsync.go:119-123 | a successful first attempt ends the loop: the second result plays no part and the destination is the whole source |
| Worker.RetryContinuesAtOffsets | nfsync.go:119-126 | the retry continues at the first attempt's offsets instead of restarting |
| Worker.LostBytesSurviveRetry | nfsync.go:119-132 | a concrete run where bytes read but not written by the first attempt are missing after a successful retry |
| Worker.LosslessCopyIsExact | nfsync.go:119-130 | without lost bytes the destination is a prefix of the source, and the whole source after success |
| Worker.CheckExisting | nfsync.go:67-98 | the comparison with an existing destination; its properties are carried by Worker.CheckExistingCases, Worker.ChecksumsOnlyForEqualSizes and Worker.StatErrorMeansAbsent, and Sync.Syncer.CompareExisting is proved equal to it |
| Worker.Transfer | nfsync.go:105-132 | the open, the create and the copy after a claim; its properties are carried by Worker.TransferFacts, Worker.TransferLogsOutcome and Worker.TransferNoTokenEvents, and Sync.Syncer.OpenCreateCopy is proved equal to it |
| Worker.Work | nfsync.go:60-132 | fsworker between taking and giving back its token; its properties are carried by Worker.SkipsExactlyWhenInSync, Worker.ClaimedGrowsByClaim, Worker.ClaimIsCheckAndSet, Worker.ErrorsEndTask, Worker.CopiedOutcome, Worker.SecondRunSkips and the other Worker lemmas below, and Sync.Syncer.DecideAndCopy is proved equal to it |
| Worker.CheckExistingCases | nfsync.go:67-98 | the comparison skips exactly when the destination stats, both sizes and checksums are read and equal; it proceeds exactly when the destination is absent or the sizes or checksums differ; otherwise it ends in a size or checksum error |
| Worker.TransferFacts | nfsync.go:105-132 | after the claim the claimed set stays; the task ends with an open or create error, or with the copy's outcome exactly when both succeeded; a logged copy means the copy loop succeeded; whenever the open and the create succeed, whether the copy succeeds or both attempts fail, the truncated destination holds exactly what the attempts wrote, no other file changes and the directories stay |
| Worker.TransferLogsOutcome | nfsync.go:119-132 | once the open and the create succeed, success is logged exactly when one attempt completed; the log is [copied], [attempt 1 error, sleep, copied] or [attempt 1 error, sleep, attempt 2 error, sleep, retry error] |
| Worker.TransferNoTokenEvents | nfsync.go:105-132 | the open, the create and the copy log no semaphore operation |
| Worker.SkipsExactlyWhenInSync | nfsync.go:60-98 | the worker skips a matching file exactly when the directory exists and the destination is in sync, and then changes neither the claimed set nor any file |
| Worker.ClaimedGrowsByClaim | nfsync.go:100-130 | the claimed set gains the source exactly when the directory is ensured and the comparison proceeds, whatever happens afterwards; it never loses a path |
| Worker.ClaimIsCheckAndSet | nfsync.go:100-103 | a source already claimed is skipped as processed with no file change; a first claim adds it and goes on to open, create and copy |
| Worker.ClaimedSourceUntouched | nfsync.go:100-103 | a task for a claimed source changes no file and no claim and logs one line that is not a copy |
| Worker.CopiedMeansClaimed | nfsync.go:100-132 | a task that logs a copy has newly claimed its source |
| Worker.CopiedOutcome | nfsync.go:100-132 | a logged copy means the directory, the open, the create and a copy attempt all succeeded, and the destination holds what was copied |
| Worker.SecondClaimDoesNoCopy | nfsync.go:100-103 | after a task claimed a source, a second task for it copies nothing and changes no file |
| Worker.ChecksumsOnlyForEqualSizes | nfsync.go:80-97 | for different sizes neither the digest nor the checksum I/O affects the outcome |
| Worker.StatErrorMeansAbsent | nfsync.go:67 | a failed destination stat leads to the claim; sizes and checksums are not consulted |
| Worker.ErrorsEndTask | nfsync.go:61-116 | a directory, size, checksum, open or create error is the task's only log line and changes no file; the first three leave the claimed set unchanged |
| Worker.SizeMismatchForcesCopy | nfsync.go:67-132 | a destination of another size is overwritten with the source and a copy is logged when no I/O fails |
| Worker.AbsentDestinationIsCopied | nfsync.go:67-132 | a destination that does not exist is created with the source's contents and a copy is logged when no I/O fails |
| Worker.DestinationNotAncestor | nfsync.go:60-61 | the directories made for a destination never include the destination itself |
| Worker.SameHeadIsSkipped | nfsync.go:80-96 | equal sizes over 1 MiB with the same first 1 MiB are skipped even if they differ later |
| Worker.SecondRunSkips | nfsync.go:55-133 | after a copy without lost bytes, a later run meeting no failure skips the pair |
| Worker.ExactCopyIsInSync | nfsync.go:67-96 | a destination equal to its source is skipped by a task that meets no failure |
| Worker.NoTokenEventsInWork | nfsync.go:55-58 | the decision and copy never touch the semaphore |
| Sync.Syncer.constructor | nfsync.go:25-29 | a run starts with nothing claimed, no token taken and an empty log |
| Sync.Syncer.Default | nfsync.go:162-203 | a run with the default thread count starts with 64 tokens free, nothing claimed and an empty log |
| Sync.Syncer.Acquire | nfsync.go:57 | taking a token raises the count by one and stays within capacity |
| Sync.Syncer.Release | nfsync.go:58 | giving a token back lowers the count by one |
| Sync.Syncer.LoadOrStore | nfsync.go:100 | reports whether the path was claimed, and claims it |
| Sync.Syncer.FsWorker | nfsync.go:55-133 | one token taken first and given back last, so the count is unchanged; the filesystem, claimed set and log are those of Work |
| Sync.Syncer.DecideAndCopy | nfsync.go:60-132 | the early-return sequence leaves exactly the filesystem, claimed set and log of Work |
| Sync.Syncer.CompareExisting | nfsync.go:67-98 | returns the comparison's outcome: skip exactly when in sync, proceed exactly when a copy is needed |
| Sync.Syncer.OpenCreateCopy | nfsync.go:105-132 | the open, the create and the two-attempt loop leave exactly the filesystem and log of Transfer |
| Run.RunWith | nfsync.go:218-220 | the tasks of a run worked one after another (the dispatcher loop made sequential), one log per task; its properties are carried by Run.RunKeepsClaims and Run.OneCopyPerSource |
| Run.WorkKeepsDiscipline | nfsync.go:100-132 | each fsworker task only grows the claimed set, and logs a copy only after newly claiming its source |
| Run.RunKeepsClaims | nfsync.go:100-103 | under that discipline, over a run the claimed set only grows and every copied source stays claimed |
| Run.OneCopyPerSource | nfsync.go:100-103 | under that discipline, no two tasks of a run for the same source both log a copy |
| Run.RunClaimsCopiedSources | nfsync.go:100-130 | over a run of fsworker tasks the claimed set only grows, and every copied source ends claimed |
| Run.AtMostOneCopyPerSource | nfsync.go:100-103 | within one run of fsworker tasks, at most one task per source path logs a copy |

## Left out

- Goroutines, the `WaitGroup`, the task channel, the goroutine that closes
  it and the dispatcher loop (nfsync.go:207-223) are concurrency. `Run`
  works whole tasks one after another instead.
- Sync.Syncer.FsWorker requires a free token: blocking until another
  worker releases one is concurrency and is not modelled. A capacity of 0,
  where every worker would block forever, is excluded.
- MD5 and hex encoding are a parameter of the model (`Digest`), so no
  property of the hash function itself is modelled.
- Real I/O (`os.MkdirAll`, `os.Stat`, `os.Open`, `os.Create`, `io.Copy`,
  `filepath.WalkDir`) is replaced by the filesystem map and the `Faults`
  value. The walk is given as its sequence of entries.
- `time.Sleep` is the `Backoff` event; time is not modelled.
- Worker.Work: a failed MkdirAll leaves the directories unchanged;
  os.MkdirAll may already have created some missing ancestors before the
  failing step, and those stay on disk.
- Log text, the log directory, the log file and its timestamped name, and
  CLI parsing and startup checks (nfsync.go:160-205) are not modelled.
- The indexer's log lines (nfsync.go:140, :147, :156) have no `Event`s;
  `walkError` of `Indexer.IndexFs` stands for the walk error logged at
  nfsync.go:156.
- Directories as worker operands are left out. A stat of a destination
  that is a directory and opening a directory are not modelled. A
  destination exists when it is a regular file; creating over a directory
  fails.
- The walk's entries are a parameter of `Indexer.IndexFs`; they are not
  derived from the filesystem map, so nothing ties the walked paths to the
  files the workers later read.
- The lemmas are stated over every `Fs` value, including ones no real
  filesystem has: a path that is both a file and a directory, or a file
  whose parent is not a directory. On a path in both sets `MkdirAll` fails
  where os.MkdirAll would succeed. `FileSystem.WellFormed` (files and
  directories disjoint) names the real states, and
  `FileSystem.MkdirAllKeepsWellFormed` shows that directory creation keeps
  it; parent directories of files are not tracked.
- Indexer.Rel: a path outside the root gives an error rather than a
  relative path starting with "..". Every path a walk reaches lies under
  its root. OS path details (separators, cleaning) are not modelled.
- Worker.Transfer copies the source as it is once the destination has been
  created, so a task whose source and destination are the same file copies
  nothing. Changes by other processes during the copy are not modelled.
- The destination file's permissions, times and the handles' closing are
  not modelled.

/** fsworker's decision machine as functions: from the filesystem, the set
    of source paths claimed so far in the run and the I/O results the task
    meets, to the new filesystem, the new claimed set and what is logged.
    The imperative worker in module Sync is proved to follow Work. */
module Worker {
  import opened FileSystem
  import opened Checksum

  /** The log lines a worker writes, by kind, plus its two semaphore
      operations (a token taken, a token given back). Backoff stands for the
      one-second sleep after a failed copy attempt. */
  datatype Event =
    | TokenAcquired
    | TokenReleased
    | DirError(dir: Path)
    | SizeError(path: Path)
    | ChecksumError(path: Path)
    | SkipMatching(dst: Path)
    | SkipProcessed(src: Path)
    | OpenError(src: Path)
    | CreateError(dst: Path)
    | AttemptError(attempt: nat)
    | Backoff
    | RetryError
    | Copied

  /** An error that ends the task before any copy attempt. */
  predicate IsTaskError(e: Event)
  {
    e.DirError? || e.SizeError? || e.ChecksumError? || e.OpenError? || e.CreateError?
  }

  /** The outcome of one io.Copy call: it reached end of file, or it failed
      after reading `read` more bytes of the source and writing the first
      `written` of them to the destination. */
  datatype CopyResult = Completed | Broken(read: nat, written: nat)

  /** A failed attempt that lost no bytes it had read. */
  predicate Lossless(r: CopyResult)
  {
    r.Broken? ==> r.read <= r.written
  }

  /** The I/O results of one task that the filesystem map does not decide:
      an injected failure for each call, and the result of each of the two
      copy attempts. */
  datatype Faults = Faults(
    mkdir: bool,
    statDst: bool,
    sizeSrc: bool,
    sizeDst: bool,
    hashSrc: bool,
    hashDst: bool,
    open: bool,
    create: bool,
    firstCopy: CopyResult,
    secondCopy: CopyResult)

  const NoFaults := Faults(false, false, false, false, false, false, false, false, Completed, Completed)

  /** The result of attempt i of the copy loop (i = 0, 1). */
  function CopyResultOf(f: Faults, i: nat): CopyResult
  {
    if i == 0 then f.firstCopy else f.secondCopy
  }

  /** The open handles of a copy: the source offset and the bytes written to
      the destination so far. Both survive a failed attempt. */
  datatype Stream = Stream(pos: nat, written: Bytes)

  /** One io.Copy(d, s) on the open handles, over source contents c. */
  function Attempt(c: Bytes, s: Stream, r: CopyResult): (t: (Stream, bool))
    requires s.pos <= |c|
    ensures s.pos <= t.0.pos <= |c|
    ensures s.written <= t.0.written
    ensures |t.0.written| - |s.written| <= t.0.pos - s.pos
    ensures t.1 <==> r.Completed?
    ensures t.1 ==> t.0.pos == |c| && t.0.written == s.written + c[s.pos..]
  {
    match r
    case Completed => (Stream(|c|, s.written + c[s.pos..]), true)
    case Broken(read, written) =>
      var n := Min(read, |c| - s.pos);
      var w := Min(written, n);
      (Stream(s.pos + n, s.written + c[s.pos..s.pos + w]), false)
  }

  /** What one attempt appends to the destination is the source's bytes
      from the offset, never anything else: a broken attempt writes a
      prefix of what it read. */
  lemma AttemptWritesSource(c: Bytes, s: Stream, r: CopyResult)
    requires s.pos <= |c|
    ensures var t := Attempt(c, s, r).0;
      t.written == s.written + c[s.pos..s.pos + (|t.written| - |s.written|)]
  {
  }

  /** The copy loop: what ends up in the destination, the log lines of the
      failed attempts, and whether some attempt succeeded. */
  datatype CopyRun = CopyRun(written: Bytes, events: seq<Event>, ok: bool)

  function CopyWithRetry(c: Bytes, f: Faults): CopyRun
  {
    var (s1, ok1) := Attempt(c, Stream(0, []), f.firstCopy);
    if ok1 then CopyRun(s1.written, [], true)
    else
      var (s2, ok2) := Attempt(c, s1, f.secondCopy);
      CopyRun(s2.written, [AttemptError(1), Backoff] + (if ok2 then [] else [AttemptError(2), Backoff]), ok2)
  }

  /** At most two attempts, numbered 1 and 2, each failure followed by the
      sleep; the copy succeeds exactly when fewer than two attempts failed,
      that is when one of the two attempts completed. */
  lemma AtMostTwoAttempts(c: Bytes, f: Faults)
    ensures var r := CopyWithRetry(c, f);
      && r.events <= [AttemptError(1), Backoff, AttemptError(2), Backoff]
      && |r.events| % 2 == 0
      && (r.ok <==> |r.events| < 4)
      && (r.ok <==> f.firstCopy.Completed? || f.secondCopy.Completed?)
  {
  }

  /** The copy loop logs nothing but failed attempts and their sleeps. */
  lemma CopyLogsOnlyAttempts(c: Bytes, f: Faults)
    ensures forall e | e in CopyWithRetry(c, f).events :: e.AttemptError? || e == Backoff
  {
    AtMostTwoAttempts(c, f);
  }

  /** A first attempt that succeeds ends the loop: the second attempt's
      result plays no part, and the destination holds the whole source. */
  lemma NoRetryAfterSuccess(c: Bytes, f: Faults, second: CopyResult)
    requires f.firstCopy.Completed?
    ensures CopyWithRetry(c, f) == CopyWithRetry(c, f.(secondCopy := second))
    ensures CopyWithRetry(c, f).written == c && CopyWithRetry(c, f).ok
  {
    assert c[0..] == c;
  }

  /** The retry reuses the open handles: after a failed first attempt, the
      second continues from the source offset and the bytes already written,
      it does not restart at byte 0. */
  lemma RetryContinuesAtOffsets(c: Bytes, f: Faults)
    requires !f.firstCopy.Completed? && f.secondCopy.Completed?
    ensures var s1 := Attempt(c, Stream(0, []), f.firstCopy).0;
      CopyWithRetry(c, f).written == s1.written + c[s1.pos..]
  {
  }

  /** So a first attempt that read bytes it did not write leaves a
      destination that differs from the source, although the retry
      succeeds and success is logged. */
  lemma LostBytesSurviveRetry()
    ensures var f := NoFaults.(firstCopy := Broken(1, 0));
      var r := CopyWithRetry([7, 8], f);
      r.ok && r.written == [8] && r.written != [7, 8]
  {
  }

  /** When no attempt drops bytes it read, the destination is always a
      prefix of the source, and the whole source once a copy succeeds; a
      failed copy leaves that prefix in place. */
  lemma LosslessCopyIsExact(c: Bytes, f: Faults)
    requires Lossless(f.firstCopy) && Lossless(f.secondCopy)
    ensures CopyWithRetry(c, f).written <= c
    ensures CopyWithRetry(c, f).ok ==> CopyWithRetry(c, f).written == c
  {
    var (s1, ok1) := Attempt(c, Stream(0, []), f.firstCopy);
    AttemptKeepsPrefix(c, Stream(0, []), f.firstCopy);
    if !ok1 {
      AttemptKeepsPrefix(c, s1, f.secondCopy);
    }
  }

  /** A lossless attempt keeps "written == the source up to the offset". */
  lemma AttemptKeepsPrefix(c: Bytes, s: Stream, r: CopyResult)
    requires s.pos <= |c| && s.written == c[..s.pos] && Lossless(r)
    ensures Attempt(c, s, r).0.written == c[..Attempt(c, s, r).0.pos]
  {
    var t := Attempt(c, s, r).0;
    if r.Completed? {
      assert c[..s.pos] + c[s.pos..] == c;
    } else {
      assert c[..s.pos] + c[s.pos..t.pos] == c[..t.pos];
    }
  }

  /** Where the comparison with an existing destination leads. */
  datatype Check = Proceed | Skip | Abort(error: Event)

  /** The comparison fsworker makes before claiming: a destination whose
      stat fails counts as absent; sizes first, checksums only for equal
      sizes. */
  function CheckExisting(digest: Digest, fs: Fs, src: Path, dst: Path, f: Faults): Check
  {
    if f.statDst || dst !in fs.files then Proceed
    else
      match FileSize(fs, src, f.sizeSrc)
      case None => Abort(SizeError(src))
      case Some(srcSize) =>
        match FileSize(fs, dst, f.sizeDst)
        case None => Abort(SizeError(dst))
        case Some(dstSize) =>
          if srcSize != dstSize then Proceed
          else
            match Hash(digest, fs, src, f.hashSrc)
            case None => Abort(ChecksumError(src))
            case Some(srcSum) =>
              match Hash(digest, fs, dst, f.hashDst)
              case None => Abort(ChecksumError(dst))
              case Some(dstSum) => if srcSum == dstSum then Skip else Proceed
  }

  /** The destination exists, both sizes and both checksums are read without
      error, and they are equal. */
  predicate InSync(digest: Digest, fs: Fs, src: Path, dst: Path, f: Faults)
  {
    && !f.statDst && dst in fs.files && src in fs.files
    && !f.sizeSrc && !f.sizeDst && |fs.files[src]| == |fs.files[dst]|
    && !f.hashSrc && !f.hashDst
    && TruncatedChecksum(digest, fs.files[src]) == TruncatedChecksum(digest, fs.files[dst])
  }

  /** The comparison ends without error and without a match: the destination
      is absent (or its stat failed), or the sizes differ, or the checksums
      differ. */
  predicate NeedsCopy(digest: Digest, fs: Fs, src: Path, dst: Path, f: Faults)
  {
    || f.statDst || dst !in fs.files
    || (&& src in fs.files && !f.sizeSrc && !f.sizeDst
        && (|| |fs.files[src]| != |fs.files[dst]|
            || (!f.hashSrc && !f.hashDst
                && TruncatedChecksum(digest, fs.files[src]) != TruncatedChecksum(digest, fs.files[dst]))))
  }

  /** The three ways the comparison ends. */
  lemma CheckExistingCases(digest: Digest, fs: Fs, src: Path, dst: Path, f: Faults)
    ensures CheckExisting(digest, fs, src, dst, f) == Skip <==> InSync(digest, fs, src, dst, f)
    ensures CheckExisting(digest, fs, src, dst, f) == Proceed <==> NeedsCopy(digest, fs, src, dst, f)
    ensures CheckExisting(digest, fs, src, dst, f).Abort? ==> IsTaskError(CheckExisting(digest, fs, src, dst, f).error)
  {
  }

  /** The new state and the log lines of one task. */
  datatype Step = Step(fs: Fs, claimed: set<Path>, trace: seq<Event>)

  /** fsworker between taking and giving back its token. */
  function Work(digest: Digest, fs: Fs, claimed: set<Path>, src: Path, dst: Path, f: Faults): Step
  {
    var dir := ParentDir(dst);
    match MkdirAll(fs, dir, f.mkdir)
    case None => Step(fs, claimed, [DirError(dir)])
    case Some(fs1) =>
      match CheckExisting(digest, fs1, src, dst, f)
      case Abort(e) => Step(fs1, claimed, [e])
      case Skip => Step(fs1, claimed, [SkipMatching(dst)])
      case Proceed =>
        if src in claimed then Step(fs1, claimed, [SkipProcessed(src)])
        else Transfer(fs1, claimed + {src}, src, dst, f)
  }

  /** Open the source, create (truncate) the destination, copy with one retry.
      The copy reads the source as it is after the destination was created. */
  function Transfer(fs: Fs, claimed: set<Path>, src: Path, dst: Path, f: Faults): Step
  {
    if f.open || src !in fs.files then Step(fs, claimed, [OpenError(src)])
    else if f.create || dst in fs.dirs then Step(fs, claimed, [CreateError(dst)])
    else
      var created := fs.(files := fs.files[dst := []]);
      var run := CopyWithRetry(created.files[src], f);
      Step(created.(files := created.files[dst := run.written]), claimed,
           run.events + [if run.ok then Copied else RetryError])
  }

  /** What follows the claim keeps the claimed set and ends with the outcome
      of the open, the create or the copy. */
  lemma TransferFacts(fs: Fs, claimed: set<Path>, src: Path, dst: Path, f: Faults)
    ensures Transfer(fs, claimed, src, dst, f).claimed == claimed
    ensures var t := Transfer(fs, claimed, src, dst, f).trace;
      && |t| > 0
      && (t[|t| - 1].OpenError? || t[|t| - 1].CreateError? || t[|t| - 1] == Copied || t[|t| - 1] == RetryError)
      && (t[|t| - 1] == Copied || t[|t| - 1] == RetryError <==> !f.open && src in fs.files && !f.create && dst !in fs.dirs)
    ensures var s := Transfer(fs, claimed, src, dst, f);
      Copied in s.trace ==>
        && !f.open && src in fs.files && !f.create && dst !in fs.dirs
        && var run := CopyWithRetry(fs.files[dst := []][src], f);
           run.ok && s.fs.files == fs.files[dst := run.written]
    ensures !f.open && src in fs.files && !f.create && dst !in fs.dirs ==>
      && Transfer(fs, claimed, src, dst, f).fs.files
         == fs.files[dst := CopyWithRetry(fs.files[dst := []][src], f).written]
      && Transfer(fs, claimed, src, dst, f).fs.dirs == fs.dirs
  {
    if !f.open && src in fs.files && !f.create && dst !in fs.dirs {
      AtMostTwoAttempts(fs.files[dst := []][src], f);
    }
  }

  /** Once the open and the create succeed, success is logged exactly when
      one copy attempt completed, and the log is one of three: a first
      attempt that completes, a failed attempt and a retry that completes,
      or two failed attempts and the retry error. */
  lemma TransferLogsOutcome(fs: Fs, claimed: set<Path>, src: Path, dst: Path, f: Faults)
    ensures !f.open && src in fs.files && !f.create && dst !in fs.dirs ==>
      var t := Transfer(fs, claimed, src, dst, f).trace;
      && (t[|t| - 1] == Copied <==> CopyWithRetry(fs.files[dst := []][src], f).ok)
      && (f.firstCopy.Completed? ==> t == [Copied])
      && (!f.firstCopy.Completed? && f.secondCopy.Completed? ==> t == [AttemptError(1), Backoff, Copied])
      && (!f.firstCopy.Completed? && !f.secondCopy.Completed? ==>
            t == [AttemptError(1), Backoff, AttemptError(2), Backoff, RetryError])
  {
  }

  /** The open, the create and the copy log no semaphore operation. */
  lemma TransferNoTokenEvents(fs: Fs, claimed: set<Path>, src: Path, dst: Path, f: Faults)
    ensures forall e | e in Transfer(fs, claimed, src, dst, f).trace :: e != TokenAcquired && e != TokenReleased
  {
    if !f.open && src in fs.files && !f.create && dst !in fs.dirs {
      var run := CopyWithRetry(fs.files[dst := []][src], f);
      CopyLogsOnlyAttempts(fs.files[dst := []][src], f);
      assert Transfer(fs, claimed, src, dst, f).trace == run.events + [if run.ok then Copied else RetryError];
    }
  }

  /** The worker skips, touching neither the claimed set nor any file,
      exactly when its directory is ensured and the destination is in sync. */
  lemma SkipsExactlyWhenInSync(digest: Digest, fs: Fs, claimed: set<Path>, src: Path, dst: Path, f: Faults)
    ensures var s := Work(digest, fs, claimed, src, dst, f);
      s.trace == [SkipMatching(dst)] <==>
        MkdirAll(fs, ParentDir(dst), f.mkdir).Some? && InSync(digest, fs, src, dst, f)
    ensures var s := Work(digest, fs, claimed, src, dst, f);
      s.trace == [SkipMatching(dst)] ==> s.claimed == claimed && s.fs.files == fs.files
  {
    match MkdirAll(fs, ParentDir(dst), f.mkdir)
    case None =>
    case Some(fs1) =>
      assert fs1.files == fs.files;
      CheckExistingCases(digest, fs1, src, dst, f);
      match CheckExisting(digest, fs1, src, dst, f)
      case Abort(e) =>
      case Skip =>
      case Proceed =>
        if src !in claimed {
          TransferFacts(fs1, claimed + {src}, src, dst, f);
        }
  }

  /** The claim: the source path is added exactly when the comparison falls
      through, and it stays whatever happens to the open, the create and the
      copy after it. No task removes a path. */
  lemma ClaimedGrowsByClaim(digest: Digest, fs: Fs, claimed: set<Path>, src: Path, dst: Path, f: Faults)
    ensures var s := Work(digest, fs, claimed, src, dst, f);
      s.claimed == if MkdirAll(fs, ParentDir(dst), f.mkdir).Some? && NeedsCopy(digest, fs, src, dst, f)
                   then claimed + {src} else claimed
    ensures claimed <= Work(digest, fs, claimed, src, dst, f).claimed <= claimed + {src}
  {
    match MkdirAll(fs, ParentDir(dst), f.mkdir)
    case None =>
    case Some(fs1) =>
      assert fs1.files == fs.files;
      CheckExistingCases(digest, fs1, src, dst, f);
      match CheckExisting(digest, fs1, src, dst, f)
      case Abort(e) =>
      case Skip =>
      case Proceed =>
        if src !in claimed {
          TransferFacts(fs1, claimed + {src}, src, dst, f);
        }
  }

  /** Check-and-set: a source path claimed before is skipped as already
      processed with no open, create or copy; a first claim goes on to
      them. */
  lemma ClaimIsCheckAndSet(digest: Digest, fs: Fs, claimed: set<Path>, src: Path, dst: Path, f: Faults)
    requires MkdirAll(fs, ParentDir(dst), f.mkdir).Some? && NeedsCopy(digest, fs, src, dst, f)
    ensures var s := Work(digest, fs, claimed, src, dst, f);
      src in claimed ==> s.trace == [SkipProcessed(src)] && s.claimed == claimed && s.fs.files == fs.files
    ensures var s := Work(digest, fs, claimed, src, dst, f);
      src !in claimed ==>
        && s.claimed == claimed + {src}
        && |s.trace| > 0
        && var last := s.trace[|s.trace| - 1];
           last.OpenError? || last.CreateError? || last == Copied || last == RetryError
  {
    var fs1 := MkdirAll(fs, ParentDir(dst), f.mkdir).value;
    assert fs1.files == fs.files;
    CheckExistingCases(digest, fs1, src, dst, f);
    assert CheckExisting(digest, fs1, src, dst, f) == Proceed;
    if src !in claimed {
      TransferFacts(fs1, claimed + {src}, src, dst, f);
    }
  }

  /** A source path already claimed is never opened, created or copied
      again: no file changes and no copy is logged. */
  lemma ClaimedSourceUntouched(digest: Digest, fs: Fs, claimed: set<Path>, src: Path, dst: Path, f: Faults)
    requires src in claimed
    ensures var s := Work(digest, fs, claimed, src, dst, f);
      s.fs.files == fs.files && s.claimed == claimed && |s.trace| == 1 && s.trace != [Copied]
  {
    match MkdirAll(fs, ParentDir(dst), f.mkdir)
    case None =>
    case Some(fs1) =>
      assert fs1.files == fs.files;
      CheckExistingCases(digest, fs1, src, dst, f);
      match CheckExisting(digest, fs1, src, dst, f)
      case Abort(e) =>
      case Skip =>
      case Proceed =>
        if src !in claimed {
          TransferFacts(fs1, claimed + {src}, src, dst, f);
        }
  }

  /** A task that logs a copy has claimed its source path, which was not
      claimed before it. */
  lemma CopiedMeansClaimed(digest: Digest, fs: Fs, claimed: set<Path>, src: Path, dst: Path, f: Faults)
    ensures var s := Work(digest, fs, claimed, src, dst, f);
      Copied in s.trace ==> src in s.claimed && src !in claimed
  {
    match MkdirAll(fs, ParentDir(dst), f.mkdir)
    case None =>
    case Some(fs1) =>
      match CheckExisting(digest, fs1, src, dst, f)
      case Abort(e) =>
      case Skip =>
      case Proceed =>
  }

  /** Within a run, the second task for the same source path copies
      nothing and changes no file, whatever its destination and I/O. */
  lemma SecondClaimDoesNoCopy(digest: Digest, fs: Fs, claimed: set<Path>, src: Path,
                              dst1: Path, f1: Faults, dst2: Path, f2: Faults)
    requires src in Work(digest, fs, claimed, src, dst1, f1).claimed
    ensures var s1 := Work(digest, fs, claimed, src, dst1, f1);
      var s2 := Work(digest, s1.fs, s1.claimed, src, dst2, f2);
      s2.fs.files == s1.fs.files && s2.claimed == s1.claimed && Copied !in s2.trace && |s2.trace| == 1
  {
    var s1 := Work(digest, fs, claimed, src, dst1, f1);
    ClaimedSourceUntouched(digest, s1.fs, s1.claimed, src, dst2, f2);
    var s2 := Work(digest, s1.fs, s1.claimed, src, dst2, f2);
    assert s2.trace == [s2.trace[0]] && s2.trace[0] != Copied;
  }

  /** Checksums are computed only for equal sizes: when the sizes differ,
      neither the digest nor the checksum I/O makes any difference. */
  lemma ChecksumsOnlyForEqualSizes(digest: Digest, digest': Digest, fs: Fs, claimed: set<Path>,
                                   src: Path, dst: Path, f: Faults, hashSrc: bool, hashDst: bool)
    requires src in fs.files && dst in fs.files && |fs.files[src]| != |fs.files[dst]|
    ensures Work(digest, fs, claimed, src, dst, f)
         == Work(digest', fs, claimed, src, dst, f.(hashSrc := hashSrc, hashDst := hashDst))
  {
  }

  /** Any error from the destination stat counts as "destination absent":
      no size or checksum is consulted and the task goes on to the claim. */
  lemma StatErrorMeansAbsent(digest: Digest, digest': Digest, fs: Fs, claimed: set<Path>, src: Path, dst: Path,
                             f: Faults, sizeSrc: bool, sizeDst: bool, hashSrc: bool, hashDst: bool)
    requires f.statDst
    ensures NeedsCopy(digest, fs, src, dst, f)
    ensures Work(digest, fs, claimed, src, dst, f)
         == Work(digest', fs, claimed, src, dst,
                 f.(sizeSrc := sizeSrc, sizeDst := sizeDst, hashSrc := hashSrc, hashDst := hashDst))
  {
  }

  /** A failure to create the directory, stat a size, compute a checksum,
      open or create ends the task: one log line, no file changed, and the
      claimed set changed only if the claim came before the failure. */
  lemma ErrorsEndTask(digest: Digest, fs: Fs, claimed: set<Path>, src: Path, dst: Path, f: Faults)
    ensures |Work(digest, fs, claimed, src, dst, f).trace| > 0
    ensures var s := Work(digest, fs, claimed, src, dst, f);
      IsTaskError(s.trace[0]) ==> s.trace == [s.trace[0]] && s.fs.files == fs.files
    ensures var s := Work(digest, fs, claimed, src, dst, f);
      (s.trace[0].DirError? || s.trace[0].SizeError? || s.trace[0].ChecksumError?) ==> s.claimed == claimed
  {
    match MkdirAll(fs, ParentDir(dst), f.mkdir)
    case None =>
    case Some(fs1) =>
      if CheckExisting(digest, fs1, src, dst, f) == Proceed && src !in claimed
         && !f.open && src in fs1.files && !f.create && dst !in fs1.dirs {
        AtMostTwoAttempts(fs1.files[dst := []][src], f);
      }
  }

  /** A destination of another size is always copied over: without I/O
      failures it ends up equal to the source and a copy is logged. */
  lemma SizeMismatchForcesCopy(digest: Digest, fs: Fs, claimed: set<Path>, src: Path, dst: Path)
    requires src in fs.files && dst in fs.files && |fs.files[src]| != |fs.files[dst]|
    requires src !in claimed && dst !in fs.dirs
    requires MkdirAll(fs, ParentDir(dst), false).Some?
    ensures var s := Work(digest, fs, claimed, src, dst, NoFaults);
      s.trace == [Copied] && s.claimed == claimed + {src}
      && s.fs.files == fs.files[dst := fs.files[src]]
  {
    var fs1 := MkdirAll(fs, ParentDir(dst), false).value;
    DestinationNotAncestor(fs, dst);
    var c := fs1.files[dst := []][src];
    NoRetryAfterSuccess(c, NoFaults, Completed);
  }

  /** A destination that does not exist yet is created with the source's
      contents, and a copy is logged, when no I/O fails. */
  lemma AbsentDestinationIsCopied(digest: Digest, fs: Fs, claimed: set<Path>, src: Path, dst: Path)
    requires src in fs.files && dst !in fs.files && dst !in fs.dirs
    requires src !in claimed
    requires MkdirAll(fs, ParentDir(dst), false).Some?
    ensures var s := Work(digest, fs, claimed, src, dst, NoFaults);
      s.trace == [Copied] && s.claimed == claimed + {src}
      && s.fs.files == fs.files[dst := fs.files[src]]
  {
    var fs1 := MkdirAll(fs, ParentDir(dst), false).value;
    DestinationNotAncestor(fs, dst);
    var c := fs1.files[dst := []][src];
    NoRetryAfterSuccess(c, NoFaults, Completed);
  }

  /** The directories MkdirAll adds for dst are all shorter than dst. */
  lemma DestinationNotAncestor(fs: Fs, dst: Path)
    ensures dst !in Ancestry(ParentDir(dst))
  {
  }

  /** Files equal in size and in their first 1 MiB are skipped even when
      they differ after it: the destination keeps its own contents. */
  lemma SameHeadIsSkipped(digest: Digest, fs: Fs, claimed: set<Path>, src: Path, dst: Path)
    requires src in fs.files && dst in fs.files
    requires |fs.files[src]| == |fs.files[dst]| > MaxHashBytes
    requires fs.files[src][..MaxHashBytes] == fs.files[dst][..MaxHashBytes]
    requires MkdirAll(fs, ParentDir(dst), false).Some?
    ensures var s := Work(digest, fs, claimed, src, dst, NoFaults);
      s.trace == [SkipMatching(dst)] && s.fs.files == fs.files && s.claimed == claimed
  {
    ChecksumIgnoresTail(digest, fs.files[src], fs.files[dst]);
    SkipsExactlyWhenInSync(digest, fs, claimed, src, dst, NoFaults);
  }

  /** A logged copy means the directory was ensured, the comparison fell
      through to a first claim, the open and the create succeeded and the
      copy completed; the destination then holds what was copied. */
  lemma CopiedOutcome(digest: Digest, fs: Fs, claimed: set<Path>, src: Path, dst: Path, f: Faults)
    ensures var s := Work(digest, fs, claimed, src, dst, f);
      Copied in s.trace ==>
        && MkdirAll(fs, ParentDir(dst), f.mkdir).Some?
        && var fs1 := MkdirAll(fs, ParentDir(dst), f.mkdir).value;
           var run := CopyWithRetry(fs1.files[dst := []][src], f);
           && !f.open && !f.create && src in fs1.files && dst !in fs1.dirs && run.ok
           && s.fs.files == fs1.files[dst := run.written]
  {
    match MkdirAll(fs, ParentDir(dst), f.mkdir)
    case None =>
    case Some(fs1) =>
      match CheckExisting(digest, fs1, src, dst, f)
      case Abort(e) =>
      case Skip =>
      case Proceed =>
        if src !in claimed {
          TransferFacts(fs1, claimed + {src}, src, dst, f);
        }
  }

  /** Idempotence: after a task has copied a file (losing no bytes), a task
      of a later run for the same pair, meeting no I/O failure, skips it. */
  lemma SecondRunSkips(digest: Digest, fs: Fs, claimed: set<Path>, src: Path, dst: Path, f: Faults)
    ensures var s1 := Work(digest, fs, claimed, src, dst, f);
      Lossless(f.firstCopy) && Lossless(f.secondCopy) && Copied in s1.trace ==>
        Work(digest, s1.fs, {}, src, dst, NoFaults).trace == [SkipMatching(dst)]
  {
    var s1 := Work(digest, fs, claimed, src, dst, f);
    CopiedOutcome(digest, fs, claimed, src, dst, f);
    if Lossless(f.firstCopy) && Lossless(f.secondCopy) && Copied in s1.trace {
      var dir := ParentDir(dst);
      var fs1 := MkdirAll(fs, dir, f.mkdir).value;
      var c := fs1.files[dst := []][src];
      LosslessCopyIsExact(c, f);
      assert s1.fs.files == fs1.files[dst := c];
      DestinationNotAncestor(fs, dst);
      assert !BlockedByFile(s1.fs, dir);
      ExactCopyIsInSync(digest, s1.fs, src, dst);
    }
  }

  /** A destination equal to its source, under a directory tree that can be
      made, is skipped by a task that meets no failure. */
  lemma ExactCopyIsInSync(digest: Digest, g: Fs, src: Path, dst: Path)
    requires src in g.files && dst in g.files && g.files[dst] == g.files[src]
    requires !BlockedByFile(g, ParentDir(dst))
    ensures Work(digest, g, {}, src, dst, NoFaults).trace == [SkipMatching(dst)]
  {
    SkipsExactlyWhenInSync(digest, g, {}, src, dst, NoFaults);
  }

  /** The worker's own log lines never touch the semaphore; the token is the
      business of the code around Work. */
  lemma NoTokenEventsInWork(digest: Digest, fs: Fs, claimed: set<Path>, src: Path, dst: Path, f: Faults)
    ensures forall e | e in Work(digest, fs, claimed, src, dst, f).trace :: e != TokenAcquired && e != TokenReleased
  {
    match MkdirAll(fs, ParentDir(dst), f.mkdir)
    case None =>
    case Some(fs1) =>
      match CheckExisting(digest, fs1, src, dst, f)
      case Abort(e) =>
        CheckExistingCases(digest, fs1, src, dst, f);
      case Skip =>
      case Proceed =>
        if src !in claimed {
          TransferNoTokenEvents(fs1, claimed + {src}, src, dst, f);
        }
  }
}

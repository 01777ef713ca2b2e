/** The run-wide state fsworker updates in place: the filesystem, the set of
    claimed source paths (procFs), the semaphore (as a count of tokens in
    flight against its capacity) and the log. */
module Sync {
  import opened FileSystem
  import opened Checksum
  import opened Worker

  /** defConcurrentThreads: the semaphore capacity when --threads is not given. */
  const DefConcurrentThreads: nat := 64

  class Syncer {
    const digest: Digest
    const capacity: nat
    var fs: Fs
    var processed: set<Path>
    var inFlight: nat
    var trace: seq<Event>

    ghost predicate Valid()
      reads this
    {
      inFlight <= capacity
    }

    constructor (digest: Digest, capacity: nat, fs: Fs)
      ensures Valid()
      ensures this.digest == digest && this.capacity == capacity && this.fs == fs
      ensures processed == {} && inFlight == 0 && trace == []
    {
      this.digest := digest;
      this.capacity := capacity;
      this.fs := fs;
      processed := {};
      inFlight := 0;
      trace := [];
    }

    /** A run started without --threads: the semaphore has
        DefConcurrentThreads tokens. */
    constructor Default(digest: Digest, fs: Fs)
      ensures Valid()
      ensures this.digest == digest && capacity == DefConcurrentThreads && this.fs == fs
      ensures processed == {} && inFlight == 0 && trace == []
    {
      this.digest := digest;
      capacity := DefConcurrentThreads;
      this.fs := fs;
      processed := {};
      inFlight := 0;
      trace := [];
    }

    /** sem <- struct{}{}: take a token. With no token free the goroutine
        would block until another worker releases one. */
    method Acquire()
      requires Valid() && inFlight < capacity
      modifies this`inFlight, this`trace
      ensures Valid()
      ensures inFlight == old(inFlight) + 1 && trace == old(trace) + [TokenAcquired]
    {
      inFlight := inFlight + 1;
      trace := trace + [TokenAcquired];
    }

    /** <-sem: give a token back. */
    method Release()
      requires Valid() && inFlight > 0
      modifies this`inFlight, this`trace
      ensures Valid()
      ensures inFlight == old(inFlight) - 1 && trace == old(trace) + [TokenReleased]
    {
      inFlight := inFlight - 1;
      trace := trace + [TokenReleased];
    }

    /** procFs.LoadOrStore(src, ...): reports whether src was already claimed,
        and claims it in any case. */
    method LoadOrStore(src: Path) returns (loaded: bool)
      modifies this`processed
      ensures loaded <==> src in old(processed)
      ensures processed == old(processed) + {src}
    {
      loaded := src in processed;
      processed := processed + {src};
    }

    /** fsworker: one token taken before any other work and given back on
        every return path (the deferred receive), around the decision and
        copy of Work. */
    method FsWorker(src: Path, dst: Path, f: Faults)
      requires Valid() && inFlight < capacity
      modifies this
      ensures Valid() && inFlight == old(inFlight)
      ensures var s := Work(digest, old(fs), old(processed), src, dst, f);
        && fs == s.fs
        && processed == s.claimed
        && trace == old(trace) + [TokenAcquired] + s.trace + [TokenReleased]
      ensures old(processed) <= processed
    {
      Acquire();
      DecideAndCopy(src, dst, f);
      Release();
      ClaimedGrowsByClaim(digest, old(fs), old(processed), src, dst, f);
    }

    /** The body of fsworker between the token operations, with its early
        returns. */
    method DecideAndCopy(src: Path, dst: Path, f: Faults)
      modifies this`fs, this`processed, this`trace
      ensures var s := Work(digest, old(fs), old(processed), src, dst, f);
        fs == s.fs && processed == s.claimed && trace == old(trace) + s.trace
    {
      var dstDir := ParentDir(dst);
      var made := MkdirAll(fs, dstDir, f.mkdir);
      if made.None? {
        trace := trace + [DirError(dstDir)];
        return;
      }
      fs := made.value;

      var check := CompareExisting(src, dst, f);
      match check {
        case Abort(e) =>
          trace := trace + [e];
          return;
        case Skip =>
          trace := trace + [SkipMatching(dst)];
          return;
        case Proceed =>
      }

      var loaded := LoadOrStore(src);
      if loaded {
        trace := trace + [SkipProcessed(src)];
        return;
      }
      OpenCreateCopy(src, dst, f);
    }

    /** The comparison with an existing destination, which only reads: a
        failed stat of the destination counts as absent, the sizes come
        first and the checksums only for equal sizes. */
    method CompareExisting(src: Path, dst: Path, f: Faults) returns (check: Check)
      ensures check == CheckExisting(digest, fs, src, dst, f)
      ensures check == Skip <==> InSync(digest, fs, src, dst, f)
      ensures check == Proceed <==> NeedsCopy(digest, fs, src, dst, f)
    {
      CheckExistingCases(digest, fs, src, dst, f);
      if f.statDst || dst !in fs.files {
        return Proceed;
      }
      var srcSize := FileSize(fs, src, f.sizeSrc);
      if srcSize.None? {
        return Abort(SizeError(src));
      }
      var dstSize := FileSize(fs, dst, f.sizeDst);
      if dstSize.None? {
        return Abort(SizeError(dst));
      }
      if srcSize.value != dstSize.value {
        return Proceed;
      }
      var srcSum := Hash(digest, fs, src, f.hashSrc);
      if srcSum.None? {
        return Abort(ChecksumError(src));
      }
      var dstSum := Hash(digest, fs, dst, f.hashDst);
      if dstSum.None? {
        return Abort(ChecksumError(dst));
      }
      check := if srcSum.value == dstSum.value then Skip else Proceed;
    }

    /** After a successful claim: open the source, create the destination,
        and copy with one retry on the same open handles. */
    method OpenCreateCopy(src: Path, dst: Path, f: Faults)
      modifies this`fs, this`trace
      ensures var s := Transfer(old(fs), processed, src, dst, f);
        fs == s.fs && trace == old(trace) + s.trace
    {
      if f.open || src !in fs.files {
        trace := trace + [OpenError(src)];
        return;
      }
      if f.create || dst in fs.dirs {
        trace := trace + [CreateError(dst)];
        return;
      }
      fs := fs.(files := fs.files[dst := []]);

      var content := fs.files[src];
      var created := fs;
      ghost var before := trace;
      ghost var first := Attempt(content, Stream(0, []), f.firstCopy).0;
      var stream := Stream(0, []);
      var ok := false;
      var i := 0;
      while i <= 1
        invariant 0 <= i <= 2 && stream.pos <= |content|
        invariant fs == created.(files := created.files[dst := stream.written])
        invariant i == 0 ==> stream == Stream(0, []) && trace == before
        invariant i >= 1 ==> !f.firstCopy.Completed?
        invariant i == 1 ==> (stream == first && trace == before + [AttemptError(1), Backoff])
        invariant i == 2 ==> (&& !f.secondCopy.Completed?
                              && stream == Attempt(content, first, f.secondCopy).0
                              && trace == before + [AttemptError(1), Backoff, AttemptError(2), Backoff])
      {
        var (next, done) := Attempt(content, stream, CopyResultOf(f, i));
        stream := next;
        fs := fs.(files := fs.files[dst := stream.written]);
        if done {
          ok := true;
          break;
        }
        // Logged, then a one-second sleep.
        trace := trace + [AttemptError(i + 1), Backoff];
        i := i + 1;
      }
      if !ok {
        trace := trace + [RetryError];
        return;
      }
      trace := trace + [Copied];
    }
  }
}

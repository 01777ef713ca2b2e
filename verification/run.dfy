/** The tasks of one run worked one after another, each against the state
    the previous ones left: the filesystem and the claimed set carry over
    from task to task. Tasks are worked whole, one after another;
    interleavings between concurrent tasks are not modelled. */
module Run {
  import opened FileSystem
  import opened Checksum
  import opened Indexer
  import opened Worker

  /** The state after some tasks, with the log lines of each task. */
  datatype RunState = RunState(fs: Fs, claimed: set<Path>, traces: seq<seq<Event>>)

  /** One task worked against a filesystem and a claimed set. */
  type StepFn = (Fs, set<Path>, FileTask, Faults) -> Step

  /** The discipline the claim registry imposes on one task: the claimed set
      only grows, and a task logs a copy only when it is the one that newly
      claimed its source path. */
  ghost predicate ClaimDiscipline(step: StepFn)
  {
    forall fs: Fs, c: set<Path>, t: FileTask, f: Faults ::
      && c <= step(fs, c, t, f).claimed
      && (Copied in step(fs, c, t, f).trace ==> t.src in step(fs, c, t, f).claimed && t.src !in c)
  }

  /** Tasks worked in order by the given step. */
  function RunWith(step: StepFn, fs: Fs, claimed: set<Path>, tasks: seq<FileTask>, faults: seq<Faults>): (r: RunState)
    requires |tasks| == |faults|
    ensures |r.traces| == |tasks|
    decreases |tasks|
  {
    if tasks == [] then RunState(fs, claimed, [])
    else
      var n := |tasks| - 1;
      var prev := RunWith(step, fs, claimed, tasks[..n], faults[..n]);
      var s := step(prev.fs, prev.claimed, tasks[n], faults[n]);
      RunState(s.fs, s.claimed, prev.traces + [s.trace])
  }

  /** fsworker as a step: Work on the task's source and destination. */
  function WorkStep(digest: Digest): StepFn
  {
    (fs: Fs, c: set<Path>, t: FileTask, f: Faults) => Work(digest, fs, c, t.src, t.dst, f)
  }

  /** The tasks of a run worked by fsworker, one after another. */
  function RunTasks(digest: Digest, fs: Fs, claimed: set<Path>, tasks: seq<FileTask>, faults: seq<Faults>): (r: RunState)
    requires |tasks| == |faults|
    ensures |r.traces| == |tasks|
  {
    RunWith(WorkStep(digest), fs, claimed, tasks, faults)
  }

  /** fsworker keeps the claim discipline. */
  lemma WorkKeepsDiscipline(digest: Digest)
    ensures ClaimDiscipline(WorkStep(digest))
  {
    var step := WorkStep(digest);
    forall fs: Fs, c: set<Path>, t: FileTask, f: Faults
      ensures c <= step(fs, c, t, f).claimed
      ensures Copied in step(fs, c, t, f).trace ==> t.src in step(fs, c, t, f).claimed && t.src !in c
    {
      ClaimedGrowsByClaim(digest, fs, c, t.src, t.dst, f);
      CopiedMeansClaimed(digest, fs, c, t.src, t.dst, f);
    }
  }

  /** Under the claim discipline, over a whole run the claimed set only
      grows, and every task that logged a copy left its source path
      claimed. */
  lemma {:induction false} RunKeepsClaims(step: StepFn, fs: Fs, claimed: set<Path>, tasks: seq<FileTask>, faults: seq<Faults>)
    requires ClaimDiscipline(step) && |tasks| == |faults|
    ensures claimed <= RunWith(step, fs, claimed, tasks, faults).claimed
    ensures var r := RunWith(step, fs, claimed, tasks, faults);
      forall i | 0 <= i < |tasks| && Copied in r.traces[i] :: tasks[i].src in r.claimed
    decreases |tasks|
  {
    if tasks != [] {
      var n := |tasks| - 1;
      var prev := RunWith(step, fs, claimed, tasks[..n], faults[..n]);
      var s := step(prev.fs, prev.claimed, tasks[n], faults[n]);
      var r := RunWith(step, fs, claimed, tasks, faults);
      assert r.traces == prev.traces + [s.trace];
      RunKeepsClaims(step, fs, claimed, tasks[..n], faults[..n]);
      forall i | 0 <= i < |tasks| && Copied in r.traces[i]
        ensures tasks[i].src in r.claimed
      {
        if i < n {
          assert r.traces[i] == prev.traces[i];
          assert tasks[..n][i] == tasks[i];
        }
      }
    }
  }

  /** Under the claim discipline, at most one task per source path logs a
      copy. */
  lemma {:induction false} OneCopyPerSource(step: StepFn, fs: Fs, claimed: set<Path>,
                                            tasks: seq<FileTask>, faults: seq<Faults>, i: nat, j: nat)
    requires ClaimDiscipline(step) && |tasks| == |faults|
    requires i < j < |tasks| && tasks[i].src == tasks[j].src
    ensures var r := RunWith(step, fs, claimed, tasks, faults);
      !(Copied in r.traces[i] && Copied in r.traces[j])
    decreases |tasks|
  {
    var n := |tasks| - 1;
    var prev := RunWith(step, fs, claimed, tasks[..n], faults[..n]);
    var r := RunWith(step, fs, claimed, tasks, faults);
    assert r.traces == prev.traces + [step(prev.fs, prev.claimed, tasks[n], faults[n]).trace];
    assert r.traces[i] == prev.traces[i];
    assert tasks[..n][i] == tasks[i];
    if j < n {
      assert r.traces[j] == prev.traces[j];
      assert tasks[..n][j] == tasks[j];
      OneCopyPerSource(step, fs, claimed, tasks[..n], faults[..n], i, j);
    } else {
      RunKeepsClaims(step, fs, claimed, tasks[..n], faults[..n]);
    }
  }

  /** The dedup registry's promise: within one run of fsworker, at most one
      task per source path logs a copy, however often the path is offered. */
  lemma AtMostOneCopyPerSource(digest: Digest, fs: Fs, claimed: set<Path>,
                               tasks: seq<FileTask>, faults: seq<Faults>, i: nat, j: nat)
    requires |tasks| == |faults|
    requires i < j < |tasks| && tasks[i].src == tasks[j].src
    ensures var r := RunTasks(digest, fs, claimed, tasks, faults);
      !(Copied in r.traces[i] && Copied in r.traces[j])
  {
    WorkKeepsDiscipline(digest);
    OneCopyPerSource(WorkStep(digest), fs, claimed, tasks, faults, i, j);
  }

  /** Over a run of fsworker the claimed set only grows, and a task that
      logged a copy left its source claimed. */
  lemma RunClaimsCopiedSources(digest: Digest, fs: Fs, claimed: set<Path>, tasks: seq<FileTask>, faults: seq<Faults>)
    requires |tasks| == |faults|
    ensures claimed <= RunTasks(digest, fs, claimed, tasks, faults).claimed
    ensures var r := RunTasks(digest, fs, claimed, tasks, faults);
      forall i | 0 <= i < |tasks| && Copied in r.traces[i] :: tasks[i].src in r.claimed
  {
    WorkKeepsDiscipline(digest);
    RunKeepsClaims(WorkStep(digest), fs, claimed, tasks, faults);
  }
}

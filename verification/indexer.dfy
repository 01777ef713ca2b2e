/** indexFs: a walk of the source tree that emits one (source, destination)
    task per non-directory entry, the destination being the entry's path
    rebased from the source root onto the destination root, and that stops
    at the first entry it cannot access or cannot make relative. */
module Indexer {
  import opened FileSystem

  /** A copy task: a walked source path and its mirrored destination path. */
  datatype FileTask = FileTask(src: Path, dst: Path)

  /** One call of the walk callback: an entry reached (a directory or not),
      or the error the walk reports for a path it could not access. */
  datatype WalkEntry = Visit(path: Path, isDir: bool) | AccessError(path: Path)

  /** filepath.Rel(base, target): target's components below base; an error
      when target is not under base. */
  function Rel(base: Path, target: Path): (r: Option<Path>)
    ensures r.Some? <==> base <= target
    ensures r.Some? ==> base + r.value == target
  {
    if base <= target then Some(target[|base|..]) else None
  }

  /** filepath.Join(root, rel), which Rel undoes. */
  function Join(root: Path, rel: Path): (p: Path)
    ensures Rel(root, p) == Some(rel)
  {
    root + rel
  }

  /** The destination of a walked path: Join(dstRoot, Rel(srcRoot, p)). The
      part below the root is the same on both sides. */
  function Rebase(srcRoot: Path, dstRoot: Path, p: Path): (r: Option<Path>)
    ensures r.Some? <==> srcRoot <= p
    ensures r.Some? ==> Rel(dstRoot, r.value) == Rel(srcRoot, p)
  {
    match Rel(srcRoot, p)
    case None => None
    case Some(rel) => Some(Join(dstRoot, rel))
  }

  /** Distinct source paths are mirrored to distinct destination paths. */
  lemma RebaseInjective(srcRoot: Path, dstRoot: Path, p: Path, q: Path)
    requires Rebase(srcRoot, dstRoot, p).Some?
    requires Rebase(srcRoot, dstRoot, p) == Rebase(srcRoot, dstRoot, q)
    ensures p == q
  {
    var r := Rebase(srcRoot, dstRoot, p).value;
    assert Rel(srcRoot, p) == Rel(dstRoot, r) == Rel(srcRoot, q);
  }

  /** The callback returns an error for this entry, which ends the walk. */
  predicate Stops(srcRoot: Path, e: WalkEntry)
  {
    match e
    case AccessError(_) => true
    case Visit(p, isDir) => !isDir && Rel(srcRoot, p).None?
  }

  /** What the callback pushes onto the task channel for one entry. */
  function Emitted(srcRoot: Path, dstRoot: Path, e: WalkEntry): seq<FileTask>
  {
    match e
    case Visit(p, false) =>
      (match Rebase(srcRoot, dstRoot, p)
       case Some(d) => [FileTask(p, d)]
       case None => [])
    case _ => []
  }

  /** The tasks pushed for a run of entries, in walk order. */
  function Emit(srcRoot: Path, dstRoot: Path, walk: seq<WalkEntry>): seq<FileTask>
    decreases |walk|
  {
    if walk == [] then [] else Emitted(srcRoot, dstRoot, walk[0]) + Emit(srcRoot, dstRoot, walk[1..])
  }

  /** The number of non-directory entries reached. */
  function FileCount(walk: seq<WalkEntry>): nat
    decreases |walk|
  {
    if walk == [] then 0
    else (if walk[0].Visit? && !walk[0].isDir then 1 else 0) + FileCount(walk[1..])
  }

  /** The index of the entry that ends the walk, or |walk| if none does. */
  function FirstStop(srcRoot: Path, walk: seq<WalkEntry>): (k: nat)
    ensures k <= |walk|
    ensures forall i :: 0 <= i < k ==> !Stops(srcRoot, walk[i])
    ensures k < |walk| ==> Stops(srcRoot, walk[k])
    decreases |walk|
  {
    if walk == [] then 0
    else if Stops(srcRoot, walk[0]) then 0
    else 1 + FirstStop(srcRoot, walk[1..])
  }

  /** What indexFs produces: the tasks pushed before the walk stopped, and
      whether the walk ended with an error. */
  datatype IndexResult = IndexResult(tasks: seq<FileTask>, walkError: bool)

  function Index(srcRoot: Path, dstRoot: Path, walk: seq<WalkEntry>): IndexResult
  {
    var k := FirstStop(srcRoot, walk);
    IndexResult(Emit(srcRoot, dstRoot, walk[..k]), k < |walk|)
  }

  /** Emission follows walk order: the tasks of a concatenation are the
      tasks of its parts, one after the other. */
  lemma {:induction false} EmitAppend(srcRoot: Path, dstRoot: Path, a: seq<WalkEntry>, b: seq<WalkEntry>)
    ensures Emit(srcRoot, dstRoot, a + b) == Emit(srcRoot, dstRoot, a) + Emit(srcRoot, dstRoot, b)
    decreases |a|
  {
    if a == [] {
      assert a + b == b;
    } else {
      assert (a + b)[1..] == a[1..] + b;
      EmitAppend(srcRoot, dstRoot, a[1..], b);
    }
  }

  /** A directory entry is traversed, never emitted. */
  lemma DirectoriesNotEmitted(srcRoot: Path, dstRoot: Path, a: seq<WalkEntry>, p: Path, b: seq<WalkEntry>)
    ensures Emit(srcRoot, dstRoot, a + [Visit(p, true)] + b) == Emit(srcRoot, dstRoot, a + b)
  {
    var d := [Visit(p, true)];
    assert a + d + b == a + (d + b);
    EmitAppend(srcRoot, dstRoot, a, d + b);
    assert (d + b)[0] == Visit(p, true) && (d + b)[1..] == b;
    assert Emit(srcRoot, dstRoot, d + b) == Emit(srcRoot, dstRoot, b);
    EmitAppend(srcRoot, dstRoot, a, b);
  }

  /** In a walk without errors, exactly one task per non-directory entry. */
  lemma {:induction false} EmitOnePerFile(srcRoot: Path, dstRoot: Path, walk: seq<WalkEntry>)
    requires forall i :: 0 <= i < |walk| ==> !Stops(srcRoot, walk[i])
    ensures |Emit(srcRoot, dstRoot, walk)| == FileCount(walk)
    decreases |walk|
  {
    if walk != [] {
      EmitOnePerFile(srcRoot, dstRoot, walk[1..]);
    }
  }

  /** Every task comes from a non-directory entry of the walk, and its
      destination is that entry's rebased path. */
  lemma {:induction false} EmitSound(srcRoot: Path, dstRoot: Path, walk: seq<WalkEntry>, t: FileTask)
    requires t in Emit(srcRoot, dstRoot, walk)
    ensures Visit(t.src, false) in walk
    ensures Rebase(srcRoot, dstRoot, t.src) == Some(t.dst)
    decreases |walk|
  {
    if t !in Emitted(srcRoot, dstRoot, walk[0]) {
      EmitSound(srcRoot, dstRoot, walk[1..], t);
    }
  }

  /** Every non-directory entry the walk reaches under the source root is
      emitted, with its rebased destination. */
  lemma {:induction false} EmitComplete(srcRoot: Path, dstRoot: Path, walk: seq<WalkEntry>, i: nat)
    requires i < |walk| && walk[i].Visit? && !walk[i].isDir && !Stops(srcRoot, walk[i])
    ensures Rebase(srcRoot, dstRoot, walk[i].path).Some?
    ensures FileTask(walk[i].path, Rebase(srcRoot, dstRoot, walk[i].path).value) in Emit(srcRoot, dstRoot, walk)
    decreases i
  {
    if i > 0 {
      EmitComplete(srcRoot, dstRoot, walk[1..], i - 1);
    }
  }

  /** Once an entry stops the walk, nothing that the walk would have reached
      after it makes any difference. */
  lemma AbortIgnoresRest(srcRoot: Path, dstRoot: Path, walk: seq<WalkEntry>, rest: seq<WalkEntry>)
    requires FirstStop(srcRoot, walk) < |walk|
    ensures var k := FirstStop(srcRoot, walk);
      Index(srcRoot, dstRoot, walk[..k + 1] + rest) == Index(srcRoot, dstRoot, walk)
  {
    var k := FirstStop(srcRoot, walk);
    var w := walk[..k + 1] + rest;
    FirstStopIs(srcRoot, w, k);
    assert w[..k] == walk[..k];
  }

  /** FirstStop is the index of the first entry that stops the walk. */
  lemma {:induction false} FirstStopIs(srcRoot: Path, walk: seq<WalkEntry>, k: nat)
    requires k <= |walk|
    requires forall i :: 0 <= i < k ==> !Stops(srcRoot, walk[i])
    requires k < |walk| ==> Stops(srcRoot, walk[k])
    ensures FirstStop(srcRoot, walk) == k
    decreases k
  {
    if k > 0 {
      FirstStopIs(srcRoot, walk[1..], k - 1);
    }
  }

  /** indexFs: walks the entries in order, pushes a task for every
      non-directory entry and stops at the first entry whose access or
      relative path fails; the pushed tasks are kept. */
  method IndexFs(srcRoot: Path, dstRoot: Path, walk: seq<WalkEntry>) returns (tasks: seq<FileTask>, walkError: bool)
    ensures walkError <==> exists i :: 0 <= i < |walk| && Stops(srcRoot, walk[i])
    ensures tasks == Emit(srcRoot, dstRoot, walk[..FirstStop(srcRoot, walk)])
    ensures IndexResult(tasks, walkError) == Index(srcRoot, dstRoot, walk)
  {
    tasks, walkError := [], false;
    var i := 0;
    while i < |walk|
      invariant 0 <= i <= |walk|
      invariant forall j :: 0 <= j < i ==> !Stops(srcRoot, walk[j])
      invariant tasks == Emit(srcRoot, dstRoot, walk[..i])
    {
      var e := walk[i];
      if e.AccessError? {
        walkError := true;
        break;
      }
      if !e.isDir {
        var rel := Rel(srcRoot, e.path);
        if rel.None? {
          walkError := true;
          break;
        }
        tasks := tasks + [FileTask(e.path, Join(dstRoot, rel.value))];
      }
      assert walk[..i + 1] == walk[..i] + [e];
      EmitAppend(srcRoot, dstRoot, walk[..i], [e]);
      i := i + 1;
    }
    FirstStopIs(srcRoot, walk, i);
  }
}

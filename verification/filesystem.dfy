/** The abstract filesystem that the indexer walks and the worker reads and
    writes: regular files with their contents, and a set of directories.
    Paths are sequences of components, so the source root of a walk is a
    prefix of every path the walk reaches. */
module FileSystem {

  datatype Option<+T> = None | Some(value: T)

  newtype byte = x: int | 0 <= x < 256

  type Bytes = seq<byte>

  /** A path as its sequence of components; the empty path stands for ".". */
  type Path = seq<string>

  datatype Fs = Fs(files: map<Path, Bytes>, dirs: set<Path>)

  function Min(a: nat, b: nat): nat
  {
    if a <= b then a else b
  }

  /** filepath.Dir on a path of components: everything but the last component. */
  function ParentDir(p: Path): (d: Path)
    ensures |p| > 0 ==> d + [p[|p| - 1]] == p
    ensures |p| == 0 ==> d == []
  {
    if |p| == 0 then [] else p[..|p| - 1]
  }

  /** The directories that MkdirAll(d) leaves in place: d itself and every
      ancestor of d, "." excluded. */
  function Ancestry(d: Path): (s: set<Path>)
    ensures forall q :: q in s <==> 0 < |q| <= |d| && q == d[..|q|]
  {
    var s := set k | 1 <= k <= |d| :: d[..k];
    assert forall q | 0 < |q| <= |d| && q == d[..|q|] :: q in s by {
      forall q | 0 < |q| <= |d| && q == d[..|q|] ensures q in s {
        var k := |q|;
        assert d[..k] in s;
      }
    }
    s
  }

  /** MkdirAll cannot create d when d or one of its ancestors is a regular file. */
  predicate BlockedByFile(fs: Fs, d: Path)
  {
    exists q :: q in Ancestry(d) && q in fs.files
  }

  /** os.MkdirAll(d): fails on an injected fault or when a regular file stands
      where a directory is needed; otherwise d and all its ancestors are
      directories afterwards, and no file changes. */
  function MkdirAll(fs: Fs, d: Path, fault: bool): (r: Option<Fs>)
    ensures r.None? <==> fault || BlockedByFile(fs, d)
    ensures r.Some? ==> r.value.files == fs.files
    ensures r.Some? ==> forall k :: 1 <= k <= |d| ==> d[..k] in r.value.dirs
    ensures r.Some? ==> fs.dirs <= r.value.dirs && r.value.dirs - fs.dirs <= Ancestry(d)
  {
    if fault || BlockedByFile(fs, d) then None
    else Some(fs.(dirs := fs.dirs + Ancestry(d)))
  }

  /** Creating a directory tree that already exists changes nothing. */
  lemma MkdirAllIdempotent(fs: Fs, d: Path)
    requires MkdirAll(fs, d, false).Some?
    ensures MkdirAll(MkdirAll(fs, d, false).value, d, false) == MkdirAll(fs, d, false)
  {
    var fs1 := MkdirAll(fs, d, false).value;
    assert fs1.dirs + Ancestry(d) == fs1.dirs;
  }

  /** A state a real filesystem can be in: no path is both a regular file
      and a directory. */
  predicate WellFormed(fs: Fs)
  {
    forall p :: p in fs.files ==> p !in fs.dirs
  }

  /** A successful MkdirAll keeps files and directories apart: every
      directory it adds is one no regular file stands at. */
  lemma MkdirAllKeepsWellFormed(fs: Fs, d: Path, fault: bool)
    requires WellFormed(fs) && MkdirAll(fs, d, fault).Some?
    ensures WellFormed(MkdirAll(fs, d, fault).value)
  {
    var fs1 := MkdirAll(fs, d, fault).value;
    assert !BlockedByFile(fs, d);
    assert fs1.dirs == fs.dirs + Ancestry(d);
  }

  /** fileSize: the size os.Stat reports for a regular file; an error for a
      path that is not a regular file or on an injected fault. */
  function FileSize(fs: Fs, p: Path, fault: bool): (r: Option<nat>)
    ensures r.Some? <==> !fault && p in fs.files
    ensures r.Some? ==> r.value == |fs.files[p]|
  {
    if fault || p !in fs.files then None else Some(|fs.files[p]|)
  }
}

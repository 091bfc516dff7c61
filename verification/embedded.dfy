/**
  The compile-time template bundle (`include_dir::Dir`) and `extract_dir`,
  which writes one of its directories to disk.
 */
module Embedded {
  import opened Wrappers
  import opened FileTree

  /** A bundled file: its own name and its bytes. */
  datatype EFile = EFile(name: Segment, contents: Bytes)

  /** A bundled directory: its own name, its files, its sub-directories. */
  datatype EDir = EDir(name: Segment, files: seq<EFile>, dirs: seq<EDir>)

  /**
    Sibling names are distinct, as they are in the directory the bundle was
    made from; a file and a directory never share a name either.
   */
  predicate DistinctNames(d: EDir) {
    && DistinctFileNames(d.files)
    && DistinctDirNames(d.dirs)
    && (forall i, j :: 0 <= i < |d.files| && 0 <= j < |d.dirs| ==> d.files[i].name != d.dirs[j].name)
  }

  predicate DistinctFileNames(files: seq<EFile>) {
    forall i, j :: 0 <= i < j < |files| ==> files[i].name != files[j].name
  }

  predicate DistinctDirNames(ds: seq<EDir>) {
    forall i, j :: 0 <= i < j < |ds| ==> ds[i].name != ds[j].name
  }

  predicate WellFormed(d: EDir)
    decreases d
  {
    DistinctNames(d) && forall i :: 0 <= i < |d.dirs| ==> WellFormed(d.dirs[i])
  }

  /** The first file called `n`. */
  function FindFile(files: seq<EFile>, n: Segment): (r: Option<EFile>)
    ensures r.Some? ==> r.value in files && r.value.name == n
    ensures r.None? ==> forall i :: 0 <= i < |files| ==> files[i].name != n
  {
    if |files| == 0 then None
    else if files[0].name == n then Some(files[0])
    else FindFile(files[1..], n)
  }

  /** The first directory called `n`. */
  function FindDir(dirs: seq<EDir>, n: Segment): (r: Option<EDir>)
    ensures r.Some? ==> r.value in dirs && r.value.name == n
    ensures r.None? ==> forall i :: 0 <= i < |dirs| ==> dirs[i].name != n
  {
    if |dirs| == 0 then None
    else if dirs[0].name == n then Some(dirs[0])
    else FindDir(dirs[1..], n)
  }

  /** `Dir::get_dir(name)` for a name without separators. */
  function GetDir(root: EDir, name: string): (r: Option<EDir>)
    ensures r.Some? <==> exists i :: 0 <= i < |root.dirs| && root.dirs[i].name == Seg(name)
    ensures r.Some? ==> r.value in root.dirs && r.value.name == Seg(name)
  {
    FindDir(root.dirs, Seg(name))
  }

  /**
    What the bundle holds at a path relative to `d`: `d` itself at `[]`, a
    file of `d` at its name, anything deeper inside the sub-directory whose
    name is the first segment.
   */
  function Find(d: EDir, rel: Path): Option<Node>
    decreases |rel|
  {
    if |rel| == 0 then Some(Dir)
    else match FindFile(d.files, rel[0])
      case Some(f) => if |rel| == 1 then Some(File(f.contents)) else None
      case None =>
        match FindDir(d.dirs, rel[0])
        case Some(sub) => Find(sub, rel[1..])
        case None => None
  }

  // ---------------------------------------------------------------------------
  // extract_dir

  /** Write `files` into the existing directory `dest`, one `fs::write` each. */
  function WriteFiles(fs: Fs, files: seq<EFile>, dest: Path): Effect
    decreases |files|
  {
    if |files| == 0 then Done(fs)
    else match WriteFile(fs, dest + [files[0].name], files[0].contents)
      case Failed(f, k) => Failed(f, k)
      case Done(f) => WriteFiles(f, files[1..], dest)
  }

  /**
    `extract_dir(d, dest)`: create `dest` and its missing ancestors, write the
    files of `d` into it, then extract each sub-directory into `dest/<name>`.
    The first failing call ends the extraction and keeps the writes before it.
   */
  function Extract(fs: Fs, d: EDir, dest: Path): Effect
    decreases d
  {
    match CreateDirAll(fs, dest)
    case Failed(f, k) => Failed(f, k)
    case Done(f1) =>
      match WriteFiles(f1, d.files, dest)
      case Failed(f, k) => Failed(f, k)
      case Done(f2) => ExtractDirs(f2, d.dirs, dest)
  }

  function ExtractDirs(fs: Fs, ds: seq<EDir>, dest: Path): Effect
    decreases ds
  {
    if |ds| == 0 then Done(fs)
    else match Extract(fs, ds[0], dest + [ds[0].name])
      case Failed(f, k) => Failed(f, k)
      case Done(f) => ExtractDirs(f, ds[1..], dest)
  }

  // ---------------------------------------------------------------------------
  // The tree a successful extraction leaves behind

  /** The files of a directory, placed in `dest`. */
  function FilesAt(files: seq<EFile>, dest: Path): (m: map<Path, Node>)
    ensures forall q :: q in m ==> |q| == |dest| + 1 && IsPrefix(dest, q)
    decreases |files|
  {
    if |files| == 0 then map[]
    else map[dest + [files[0].name] := File(files[0].contents)] + FilesAt(files[1..], dest)
  }

  /**
    `d` laid out at `dest`: `dest` itself, and everything else strictly below
    it, each sub-directory below its own name.
   */
  function Materialise(d: EDir, dest: Path): (m: map<Path, Node>)
    ensures dest in m && m[dest] == Dir
    ensures forall q :: q in m ==> IsPrefix(dest, q)
    decreases d
  {
    map[dest := Dir] + FilesAt(d.files, dest) + DirsAt(d.dirs, dest)
  }

  function DirsAt(ds: seq<EDir>, dest: Path): (m: map<Path, Node>)
    ensures forall q :: q in m ==>
      |q| > |dest| && IsPrefix(dest, q) && FindDir(ds, q[|dest|]).Some?
    decreases ds
  {
    if |ds| == 0 then map[]
    else
      var m0 := Materialise(ds[0], dest + [ds[0].name]);
      var rest := DirsAt(ds[1..], dest);
      assert forall q :: q in m0 ==> |q| > |dest| && IsPrefix(dest, q) && q[|dest|] == ds[0].name by {
        forall q | q in m0 {
          ChildPrefix(dest, ds[0].name, q);
        }
      }
      m0 + rest
  }

  lemma ChildPrefix(dest: Path, n: Segment, q: Path)
    requires IsPrefix(dest + [n], q)
    ensures |q| > |dest| && IsPrefix(dest, q) && q[|dest|] == n
  {
    assert q[..|dest| + 1][|dest|] == q[|dest|];
    assert q[..|dest| + 1][..|dest|] == q[..|dest|];
  }
}

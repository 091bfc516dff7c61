/**
  The disk as the scaffolder sees it: a finite map from absolute paths to
  directories and regular files, with the two mutating calls the engine makes
  (`fs::create_dir_all` and `fs::write`). Symbolic links, permissions and
  timestamps are not part of this model.
 */
module FileTree {
  import opened Wrappers

  newtype byte = x: int | 0 <= x < 256

  type Bytes = seq<byte>

  /**
    One path component as the operating system stores it: either a valid
    Unicode name or a byte string that `OsStr::to_str` refuses.
   */
  datatype Segment = Seg(text: string) | Raw(bytes: Bytes)

  /** `OsStr::to_str`. */
  function ToStr(s: Segment): Option<string> {
    match s
    case Seg(t) => Some(t)
    case Raw(_) => None
  }

  /** An absolute path, root first; `[]` is the root directory. */
  type Path = seq<Segment>

  datatype Node = Dir | File(contents: Bytes)

  type Fs = map<Path, Node>

  /** The `io::ErrorKind`s the model distinguishes. */
  datatype ErrorKind = AlreadyExists | NotFound | NotADirectory | IsADirectory | Other

  /**
    What a sequence of file-system calls leaves behind: the disk, and whether
    the last call failed. A failure keeps the writes made before it.
   */
  datatype Effect = Done(fs: Fs) | Failed(fs: Fs, kind: ErrorKind)

  predicate IsPrefix(p: Path, q: Path) {
    |p| <= |q| && q[..|p|] == p
  }

  /** `Path::is_dir`. */
  predicate IsDir(fs: Fs, p: Path) {
    p in fs && fs[p] == Dir
  }

  /** `Path::is_file`. */
  predicate IsFile(fs: Fs, p: Path) {
    p in fs && fs[p].File?
  }

  /** Nothing exists at `p` or below it. */
  predicate Fresh(fs: Fs, p: Path) {
    forall q :: q in fs ==> !IsPrefix(p, q)
  }

  /**
    `Path::join` with a single name: joining the empty name leaves the path as
    it is. Names holding a separator, `.` or `..` are not modelled.
   */
  function PathJoin(p: Path, name: string): Path
  {
    if name == "" then p else p + [Seg(name)]
  }

  /** `PathBuf::pop` without the success flag: the root is its own parent. */
  function Parent(p: Path): (r: Path)
    ensures |p| > 0 ==> |r| == |p| - 1 && p == r + [p[|p| - 1]]
  {
    if |p| == 0 then p else p[..|p| - 1]
  }

  /** Some directory on the way to `p`, or `p` itself, is a regular file. */
  predicate Blocked(fs: Fs, p: Path) {
    exists k :: 0 <= k <= |p| && IsFile(fs, p[..k])
  }

  /** The prefixes of `p` that do not exist yet, as fresh directories. */
  function MissingDirs(fs: Fs, p: Path): (m: map<Path, Node>)
    ensures forall q :: q in m <==> q !in fs && IsPrefix(q, p)
    ensures forall q :: q in m ==> m[q] == Dir
  {
    var m := map k | 0 <= k <= |p| && p[..k] !in fs :: p[..k] := Dir;
    assert forall q :: IsPrefix(q, p) ==> q == p[..|q|];
    m
  }

  /**
    `fs::create_dir_all(p)`: creates every missing directory from the root
    down to `p`; fails, creating nothing, when `p` or one of its ancestors is a
    regular file (`AlreadyExists` for `p` itself, `NotADirectory` otherwise).
   */
  function CreateDirAll(fs: Fs, p: Path): (e: Effect)
    ensures e.Failed? <==> Blocked(fs, p)
    ensures e.Failed? ==> e.fs == fs
    ensures e.Done? ==> forall k :: 0 <= k <= |p| ==> IsDir(e.fs, p[..k])
    ensures e.Done? ==> forall q :: q in e.fs <==> q in fs || IsPrefix(q, p)
    ensures e.Done? ==> forall q :: q in fs ==> e.fs[q] == fs[q]
  {
    if Blocked(fs, p) then
      Failed(fs, if IsFile(fs, p) then AlreadyExists else NotADirectory)
    else
      var r := fs + MissingDirs(fs, p);
      assert forall k :: 0 <= k <= |p| ==> IsPrefix(p[..k], p);
      Done(r)
  }

  /**
    Why a directory cannot be reached: a regular file on the way, or a
    missing directory.
   */
  function LookupFailure(fs: Fs, p: Path): ErrorKind {
    if Blocked(fs, p) then NotADirectory else NotFound
  }

  /**
    `fs::write(p, bytes)`: creates or truncates the regular file `p`; fails
    when `p` is a directory or its parent is not an existing directory, with
    `NotADirectory` when a regular file stands on the way and `NotFound`
    when a directory on the way is missing.
   */
  function WriteFile(fs: Fs, p: Path, bytes: Bytes): (e: Effect)
    ensures e.Done? <==> !IsDir(fs, p) && |p| > 0 && IsDir(fs, Parent(p))
    ensures e.Failed? ==> e.fs == fs
    ensures e.Done? ==> e.fs == fs[p := File(bytes)]
  {
    if IsDir(fs, p) then Failed(fs, IsADirectory)
    else if |p| == 0 || !IsDir(fs, Parent(p)) then Failed(fs, LookupFailure(fs, Parent(p)))
    else Done(fs[p := File(bytes)])
  }

  /**
    Every entry other than the root sits in an existing directory, and no
    entry's path has an empty component (a directory never lists an entry
    with an empty name).
   */
  predicate WellFormedFs(fs: Fs) {
    && (forall p :: p in fs && |p| > 0 ==> IsDir(fs, Parent(p)))
    && (forall p, i :: p in fs && 0 <= i < |p| ==> p[i] != Seg(""))
  }

  /** Joining a name steps one level down: the parent of the result is where it started. */
  lemma JoinThenParent(p: Path, name: string)
    requires name != ""
    ensures Parent(PathJoin(p, name)) == p
    ensures IsPrefix(p, PathJoin(p, name)) && |PathJoin(p, name)| == |p| + 1
  {
  }

  /** Different names give different paths under the same directory. */
  lemma JoinInjective(p: Path, a: string, b: string)
    requires a != "" && b != ""
    requires PathJoin(p, a) == PathJoin(p, b)
    ensures a == b
  {
    assert PathJoin(p, a)[|p|] == Seg(a);
  }

  /**
    A successful write keeps the disk well formed and leaves a regular file
    holding exactly the bytes written at `p`; every other entry is as it was.
   */
  lemma WriteKeepsWellFormed(fs: Fs, p: Path, bytes: Bytes)
    requires WellFormedFs(fs)
    requires WriteFile(fs, p, bytes).Done? && p[|p| - 1] != Seg("")
    ensures var fs' := WriteFile(fs, p, bytes).fs;
      && WellFormedFs(fs')
      && IsFile(fs', p) && fs'[p].contents == bytes
      && forall q :: q != p ==> (q in fs' <==> q in fs) && (q in fs ==> fs'[q] == fs[q])
  {
    assert |p| > 0 && !IsDir(fs, p) && IsDir(fs, Parent(p));
    AddFileKeepsNesting(fs, p, bytes);
    AddFileKeepsNames(fs, p, bytes);
  }

  /** A new regular file inside an existing directory leaves every entry's parent a directory. */
  lemma AddFileKeepsNesting(fs: Fs, p: Path, bytes: Bytes)
    requires forall q :: q in fs && |q| > 0 ==> IsDir(fs, Parent(q))
    requires |p| > 0 && !IsDir(fs, p) && IsDir(fs, Parent(p))
    ensures var fs' := fs[p := File(bytes)];
      forall q :: q in fs' && |q| > 0 ==> IsDir(fs', Parent(q))
  {
    var fs' := fs[p := File(bytes)];
    forall q | q in fs' && |q| > 0
      ensures IsDir(fs', Parent(q))
    {
      if q == p {
        assert |Parent(p)| < |p|;
      } else {
        assert IsDir(fs, Parent(q));
      }
    }
  }

  /** A new regular file with a named last component inside a well-named directory keeps every name non-empty. */
  lemma AddFileKeepsNames(fs: Fs, p: Path, bytes: Bytes)
    requires forall q, i :: q in fs && 0 <= i < |q| ==> q[i] != Seg("")
    requires |p| > 0 && Parent(p) in fs && p[|p| - 1] != Seg("")
    ensures var fs' := fs[p := File(bytes)];
      forall q, i :: q in fs' && 0 <= i < |q| ==> q[i] != Seg("")
  {
    var fs' := fs[p := File(bytes)];
    forall q, i | q in fs' && 0 <= i < |q|
      ensures q[i] != Seg("")
    {
      if q == p && i < |p| - 1 {
        assert q[i] == Parent(p)[i];
      }
    }
  }

  /**
    A successful `create_dir_all` keeps the disk well formed when the path it
    is given has no empty component.
   */
  lemma CreateKeepsWellFormed(fs: Fs, p: Path)
    requires WellFormedFs(fs) && !Blocked(fs, p)
    requires forall i :: 0 <= i < |p| ==> p[i] != Seg("")
    ensures WellFormedFs(CreateDirAll(fs, p).fs)
  {
    var fs' := CreateDirAll(fs, p).fs;
    forall q | q in fs' && |q| > 0
      ensures IsDir(fs', Parent(q))
    {
      if q !in fs {
        assert IsPrefix(q, p) && q == p[..|q|];
        assert Parent(q) == p[..|q| - 1];
      }
    }
    forall q, i | q in fs' && 0 <= i < |q|
      ensures q[i] != Seg("")
    {
      if q !in fs {
        assert q[i] == p[i];
      }
    }
  }

  /** On a well-formed disk an entry's ancestors all exist. */
  lemma {:induction false} AncestorExists(fs: Fs, p: Path, q: Path)
    requires WellFormedFs(fs) && q in fs && IsPrefix(p, q)
    ensures p in fs
    decreases |q|
  {
    if |q| > |p| {
      var up := Parent(q);
      assert up[..|p|] == q[..|p|];
      AncestorExists(fs, p, up);
    } else {
      assert q[..|p|] == q;
    }
  }

  /** So a path that does not exist has nothing below it either. */
  lemma AbsentIsFresh(fs: Fs, p: Path)
    requires WellFormedFs(fs) && p !in fs
    ensures Fresh(fs, p)
  {
    forall q | q in fs
      ensures !IsPrefix(p, q)
    {
      if IsPrefix(p, q) {
        AncestorExists(fs, p, q);
      }
    }
  }
}

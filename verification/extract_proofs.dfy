/**
  What `extract_dir` writes: into a destination that does not exist yet and
  whose ancestors are not regular files, extraction of a well-formed bundled
  directory always succeeds and adds exactly the bundled tree, laid out below
  the destination, to the disk.
 */
module ExtractProofs {
  import opened Wrappers
  import opened FileTree
  import opened Embedded

  /** Every ancestor of `p`, and `p` itself, is a directory. */
  predicate DirChain(fs: Fs, p: Path) {
    forall k :: 0 <= k <= |p| ==> IsDir(fs, p[..k])
  }

  lemma {:induction false} WriteFilesAdds(fs: Fs, files: seq<EFile>, dest: Path)
    requires IsDir(fs, dest)
    requires forall i :: 0 <= i < |files| ==> dest + [files[i].name] !in fs
    requires DistinctFileNames(files)
    ensures WriteFiles(fs, files, dest) == Done(fs + FilesAt(files, dest))
    decreases |files|
  {
    if |files| > 0 {
      var p0 := dest + [files[0].name];
      var v0 := File(files[0].contents);
      assert Parent(p0) == dest;
      var f := fs[p0 := v0];
      assert WriteFile(fs, p0, files[0].contents) == Done(f);
      var rest := files[1..];
      forall i | 0 <= i < |rest|
        ensures dest + [rest[i].name] !in f
      {
        assert rest[i] == files[i + 1];
        assert dest + [rest[i].name] != p0;
      }
      WriteFilesAdds(f, rest, dest);
      UpdateThenUnion(fs, p0, v0, FilesAt(rest, dest));
    }
  }

  lemma UpdateThenUnion(fs: Fs, p: Path, v: Node, m: map<Path, Node>)
    ensures fs[p := v] + m == fs + (map[p := v] + m)
  {
  }

  lemma UnionAssoc(a: Fs, b: map<Path, Node>, c: map<Path, Node>)
    ensures (a + b) + c == a + (b + c)
  {
  }

  /** Creating `sd` below an existing directory chain, then laying a tree out there. */
  lemma CreateThenMaterialise(fs: Fs, dest: Path, n: Segment, m: map<Path, Node>)
    requires DirChain(fs, dest)
    requires dest + [n] in m
    requires !Blocked(fs, dest + [n])
    ensures CreateDirAll(fs, dest + [n]).fs + m == fs + m
  {
    var sd := dest + [n];
    var c := CreateDirAll(fs, sd).fs;
    forall q | q in c
      ensures q in fs || q in m
    {
      if q !in fs {
        assert IsPrefix(q, sd);
        if |q| <= |dest| {
          assert q == dest[..|q|];
        } else {
          assert q == sd;
        }
      }
    }
  }

  /** Laying out a tree at `dest + [n]` leaves every path outside it alone. */
  lemma MaterialiseIsBelow(d: EDir, dest: Path, n: Segment, q: Path)
    requires q in Materialise(d, dest + [n])
    ensures |q| > |dest| && IsPrefix(dest, q) && q[|dest|] == n
  {
    ChildPrefix(dest, n, q);
  }

  lemma AddKnown(a: Fs, p: Path, v: Node, b: map<Path, Node>)
    requires p in a && a[p] == v
    ensures a + (map[p := v] + b) == a + b
  {
  }

  /** After `create_dir_all(dest)` into a fresh `dest`, only the chain to `dest` is new. */
  lemma CreatedChain(fs: Fs, dest: Path)
    requires Fresh(fs, dest) && !Blocked(fs, dest)
    ensures CreateDirAll(fs, dest).Done?
    ensures DirChain(CreateDirAll(fs, dest).fs, dest)
    ensures forall q :: q in CreateDirAll(fs, dest).fs && IsPrefix(dest, q) ==> q == dest
  {
    var f1 := CreateDirAll(fs, dest).fs;
    forall q | q in f1 && IsPrefix(dest, q)
      ensures q == dest
    {
      if q !in fs {
        assert IsPrefix(q, dest);
      }
    }
  }

  /** Sub-directories of `d` have nowhere been written to once its files are in place. */
  lemma ChildrenFresh(f1: Fs, d: EDir, dest: Path)
    requires DistinctNames(d)
    requires forall q :: q in f1 && IsPrefix(dest, q) ==> q == dest
    ensures forall i :: 0 <= i < |d.dirs| ==> Fresh(f1 + FilesAt(d.files, dest), dest + [d.dirs[i].name])
  {
    var fa := FilesAt(d.files, dest);
    forall i | 0 <= i < |d.dirs|
      ensures Fresh(f1 + fa, dest + [d.dirs[i].name])
    {
      var sd := dest + [d.dirs[i].name];
      forall q | q in f1 + fa
        ensures !IsPrefix(sd, q)
      {
        if IsPrefix(sd, q) {
          ChildPrefix(dest, d.dirs[i].name, q);
          if q in fa {
            FilesAtKey(d.files, dest, q);
          }
        }
      }
    }
  }

  lemma {:induction false} ExtractAdds(fs: Fs, d: EDir, dest: Path)
    requires WellFormed(d)
    requires Fresh(fs, dest)
    requires !Blocked(fs, dest)
    ensures Extract(fs, d, dest) == Done(CreateDirAll(fs, dest).fs + Materialise(d, dest))
    decreases d, 1
  {
    CreatedChain(fs, dest);
    var f1 := CreateDirAll(fs, dest).fs;
    assert IsDir(f1, dest) by { assert dest[..|dest|] == dest; }
    forall i | 0 <= i < |d.files|
      ensures dest + [d.files[i].name] !in f1
    {
      var q := dest + [d.files[i].name];
      assert IsPrefix(dest, q) by { assert q[..|dest|] == dest; }
    }
    WriteFilesAdds(f1, d.files, dest);
    var fa := FilesAt(d.files, dest);
    var f2 := f1 + fa;
    forall k | 0 <= k <= |dest|
      ensures IsDir(f2, dest[..k])
    {
      assert dest[..k] !in fa;
    }
    ChildrenFresh(f1, d, dest);
    var da := DirsAt(d.dirs, dest);
    ExtractDirsAdds(f2, d.dirs, dest);
    assert Extract(fs, d, dest) == Done(f2 + da);
    UnionAssoc(f1, fa, da);
    UnionAssoc(map[dest := Dir], fa, da);
    AddKnown(f1, dest, Dir, fa + da);
  }

  lemma {:induction false} ExtractDirsAdds(fs: Fs, ds: seq<EDir>, dest: Path)
    requires forall i :: 0 <= i < |ds| ==> WellFormed(ds[i])
    requires DistinctDirNames(ds)
    requires DirChain(fs, dest)
    requires forall i :: 0 <= i < |ds| ==> Fresh(fs, dest + [ds[i].name])
    ensures ExtractDirs(fs, ds, dest) == Done(fs + DirsAt(ds, dest))
    decreases ds, 0
  {
    if |ds| > 0 {
      var n := ds[0].name;
      var sd := dest + [n];
      ChildUnblocked(fs, dest, n);
      ExtractAdds(fs, ds[0], sd);
      var m0 := Materialise(ds[0], sd);
      CreateThenMaterialise(fs, dest, n, m0);
      var f := fs + m0;
      assert Extract(fs, ds[0], sd) == Done(f);
      var rest := ds[1..];
      TailKeepsShape(ds);
      SiblingUntouched(fs, ds, dest);
      ExtractDirsAdds(f, rest, dest);
      UnionAssoc(fs, m0, DirsAt(rest, dest));
    }
  }

  lemma TailKeepsShape(ds: seq<EDir>)
    requires |ds| > 0
    requires forall i :: 0 <= i < |ds| ==> WellFormed(ds[i])
    requires DistinctDirNames(ds)
    ensures forall i :: 0 <= i < |ds[1..]| ==> WellFormed(ds[1..][i])
    ensures DistinctDirNames(ds[1..])
  {
    assert forall i :: 0 <= i < |ds[1..]| ==> ds[1..][i] == ds[i + 1];
  }

  lemma ChildUnblocked(fs: Fs, dest: Path, n: Segment)
    requires DirChain(fs, dest) && Fresh(fs, dest + [n])
    ensures !Blocked(fs, dest + [n])
  {
    var sd := dest + [n];
    forall k | 0 <= k <= |sd|
      ensures !IsFile(fs, sd[..k])
    {
      if k <= |dest| {
        assert sd[..k] == dest[..k];
      } else {
        assert sd[..k] == sd;
        assert IsPrefix(sd, sd);
      }
    }
  }

  /** Laying out the first sub-directory keeps the chain and leaves its siblings fresh. */
  lemma SiblingUntouched(fs: Fs, ds: seq<EDir>, dest: Path)
    requires |ds| > 0 && DistinctDirNames(ds)
    requires DirChain(fs, dest)
    requires forall i :: 0 <= i < |ds| ==> Fresh(fs, dest + [ds[i].name])
    ensures DirChain(fs + Materialise(ds[0], dest + [ds[0].name]), dest)
    ensures forall i :: 0 <= i < |ds[1..]| ==>
      Fresh(fs + Materialise(ds[0], dest + [ds[0].name]), dest + [ds[1..][i].name])
  {
    var n := ds[0].name;
    var m0 := Materialise(ds[0], dest + [n]);
    var f := fs + m0;
    var rest := ds[1..];
    assert DirChain(f, dest);
    forall i | 0 <= i < |rest|
      ensures Fresh(f, dest + [rest[i].name])
    {
      assert rest[i] == ds[i + 1];
      forall q | q in f
        ensures !IsPrefix(dest + [rest[i].name], q)
      {
        if IsPrefix(dest + [rest[i].name], q) && q in m0 {
          ChildPrefix(dest, rest[i].name, q);
          MaterialiseIsBelow(ds[0], dest, n, q);
        }
      }
    }
  }

  lemma FilesAtKey(files: seq<EFile>, dest: Path, q: Path)
    requires q in FilesAt(files, dest)
    ensures exists j :: 0 <= j < |files| && q == dest + [files[j].name]
    decreases |files|
  {
    if q != dest + [files[0].name] {
      FilesAtKey(files[1..], dest, q);
      var j :| 0 <= j < |files[1..]| && q == dest + [files[1..][j].name];
      assert files[1..][j] == files[j + 1];
    }
  }

  lemma {:induction false} FilesAtLookup(files: seq<EFile>, dest: Path, n: Segment)
    requires DistinctFileNames(files)
    ensures dest + [n] in FilesAt(files, dest) <==> FindFile(files, n).Some?
    ensures FindFile(files, n).Some? ==>
      FilesAt(files, dest)[dest + [n]] == File(FindFile(files, n).value.contents)
    decreases |files|
  {
    if |files| > 0 {
      var rest := files[1..];
      assert DistinctFileNames(rest) by {
        forall i, j | 0 <= i < j < |rest|
          ensures rest[i].name != rest[j].name
        {
          assert rest[i] == files[i + 1] && rest[j] == files[j + 1];
        }
      }
      FilesAtLookup(rest, dest, n);
      if files[0].name != n {
        assert dest + [n] != dest + [files[0].name] by {
          assert (dest + [n])[|dest|] == n;
        }
      }
    }
  }

  lemma {:induction false} DirsAtLookup(ds: seq<EDir>, dest: Path, n: Segment, r: Path)
    requires DistinctDirNames(ds)
    ensures dest + [n] + r in DirsAt(ds, dest) <==>
      FindDir(ds, n).Some? && dest + [n] + r in Materialise(FindDir(ds, n).value, dest + [n])
    ensures dest + [n] + r in DirsAt(ds, dest) ==>
      DirsAt(ds, dest)[dest + [n] + r] == Materialise(FindDir(ds, n).value, dest + [n])[dest + [n] + r]
    decreases ds
  {
    var q := dest + [n] + r;
    assert q[|dest|] == n;
    if |ds| > 0 {
      var rest := ds[1..];
      assert DistinctDirNames(rest) by {
        forall i, j | 0 <= i < j < |rest|
          ensures rest[i].name != rest[j].name
        {
          assert rest[i] == ds[i + 1] && rest[j] == ds[j + 1];
        }
      }
      DirsAtLookup(rest, dest, n, r);
      var m0 := Materialise(ds[0], dest + [ds[0].name]);
      if ds[0].name == n {
        assert q !in DirsAt(rest, dest);
      }
    }
  }

  /** The bundle has a file called `n`: the layout has it at `dest/n` and nothing below. */
  lemma LookupFileCase(d: EDir, dest: Path, n: Segment, r: Path)
    requires WellFormed(d) && FindFile(d.files, n).Some?
    ensures dest + [n] + r in Materialise(d, dest) <==> |r| == 0
    ensures |r| == 0 ==> Materialise(d, dest)[dest + [n] + r] == File(FindFile(d.files, n).value.contents)
  {
    var q := dest + [n] + r;
    FilesAtLookup(d.files, dest, n);
    DirsAtLookup(d.dirs, dest, n, r);
    var i :| 0 <= i < |d.files| && d.files[i] == FindFile(d.files, n).value;
    assert FindDir(d.dirs, n).None?;
    assert q != dest;
    if |r| == 0 {
      assert q == dest + [n];
    } else {
      assert q !in FilesAt(d.files, dest);
    }
  }

  /** The bundle has no file called `n`: the layout below `dest/n` is the sub-directory's. */
  lemma LookupDirCase(d: EDir, dest: Path, n: Segment, r: Path)
    requires WellFormed(d) && FindFile(d.files, n).None?
    ensures dest + [n] + r in Materialise(d, dest) <==>
      FindDir(d.dirs, n).Some? && dest + [n] + r in Materialise(FindDir(d.dirs, n).value, dest + [n])
    ensures dest + [n] + r in Materialise(d, dest) ==>
      Materialise(d, dest)[dest + [n] + r] == Materialise(FindDir(d.dirs, n).value, dest + [n])[dest + [n] + r]
  {
    var q := dest + [n] + r;
    FilesAtLookup(d.files, dest, n);
    DirsAtLookup(d.dirs, dest, n, r);
    assert q != dest;
    assert q !in FilesAt(d.files, dest) by {
      if |r| == 0 {
        assert q == dest + [n];
      } else {
        assert |q| > |dest| + 1;
      }
    }
  }

  /**
    Looking up `dest + rel` in the laid-out tree answers exactly what the
    bundled directory holds at `rel`.
   */
  lemma {:induction false} MaterialiseLookup(d: EDir, dest: Path, rel: Path)
    requires WellFormed(d)
    ensures dest + rel in Materialise(d, dest) <==> Find(d, rel).Some?
    ensures dest + rel in Materialise(d, dest) ==> Materialise(d, dest)[dest + rel] == Find(d, rel).value
    decreases d
  {
    if |rel| == 0 {
      assert dest + rel == dest;
    } else {
      var n := rel[0];
      var r := rel[1..];
      assert dest + rel == dest + [n] + r;
      if FindFile(d.files, n).Some? {
        LookupFileCase(d, dest, n, r);
      } else {
        LookupDirCase(d, dest, n, r);
        var fd := FindDir(d.dirs, n);
        if fd.Some? {
          MaterialiseLookup(fd.value, dest + [n], r);
          assert dest + [n] + r == (dest + [n]) + r;
        }
      }
    }
  }

  /**
    `extract_dir` into a destination that does not exist and whose ancestors
    are not regular files: it succeeds, every path at or below `dest` holds
    what the bundled directory holds at the same relative path (same names,
    same bytes), and everything outside `dest` is as `create_dir_all` left it.
   */
  lemma ExtractCopiesTemplate(fs: Fs, d: EDir, dest: Path)
    requires WellFormed(d)
    requires dest !in fs && Fresh(fs, dest)
    requires !Blocked(fs, dest)
    ensures Extract(fs, d, dest).Done?
    ensures forall rel :: dest + rel in Extract(fs, d, dest).fs <==> Find(d, rel).Some?
    ensures forall rel :: dest + rel in Extract(fs, d, dest).fs ==>
      Extract(fs, d, dest).fs[dest + rel] == Find(d, rel).value
    ensures forall q :: !IsPrefix(dest, q) ==>
      (q in Extract(fs, d, dest).fs <==> q in CreateDirAll(fs, dest).fs)
    ensures forall q :: !IsPrefix(dest, q) && q in fs ==> Extract(fs, d, dest).fs[q] == fs[q]
  {
    ExtractAdds(fs, d, dest);
    CreatedChain(fs, dest);
    var f1 := CreateDirAll(fs, dest).fs;
    var m := Materialise(d, dest);
    forall rel
      ensures dest + rel in f1 + m <==> Find(d, rel).Some?
      ensures dest + rel in f1 + m ==> (f1 + m)[dest + rel] == Find(d, rel).value
    {
      MaterialiseLookup(d, dest, rel);
      assert IsPrefix(dest, dest + rel) by { assert (dest + rel)[..|dest|] == dest; }
      if dest + rel in f1 {
        assert dest + rel == dest;
        assert rel == [] by { assert |rel| == 0; }
      }
    }
  }
}

/**
  What a successful scaffold leaves on disk, for either template source: the
  destination holds the template's tree under the same relative paths, every
  entry rewritten by `Rewrite`, and nothing that existed outside the
  destination has changed.
 */
module ScaffoldProofs {
  import opened Wrappers
  import opened FileTree
  import opened Embedded
  import opened ExtractProofs
  import opened Scaffold

  /** Only the destination's missing ancestors and the destination's own tree are new. */
  ghost predicate OnlyDestGrows(before: Fs, after: Fs, dest: Path) {
    forall q :: q in after && q !in before ==> IsPrefix(q, dest) || IsPrefix(dest, q)
  }

  lemma PrefixOfAppend(dest: Path, rel: Path)
    ensures IsPrefix(dest, dest + rel)
  {
    assert (dest + rel)[..|dest|] == dest;
  }

  /** Below `dest` the disk holds the bundled directory `t`, every entry rewritten. */
  ghost predicate HoldsBundle(after: Fs, dest: Path, t: EDir, name: string, c: Codec) {
    && (forall rel :: dest + rel in after <==> Find(t, rel).Some?)
    && (forall rel :: dest + rel in after ==> after[dest + rel] == Rewrite(Find(t, rel).value, name, c))
  }

  /** Below `dest` the disk holds what `before` held below `src`, every entry rewritten. */
  ghost predicate HoldsCopy(after: Fs, dest: Path, before: Fs, src: Path, name: string, c: Codec) {
    && (forall rel :: dest + rel in after <==> src + rel in before)
    && (forall rel :: src + rel in before ==> after[dest + rel] == Rewrite(before[src + rel], name, c))
  }

  /** Every entry that existed outside `dest` is still there, unchanged. */
  ghost predicate OutsideUnchanged(before: Fs, after: Fs, dest: Path) {
    forall q :: q in before && !IsPrefix(dest, q) ==> q in after && after[q] == before[q]
  }

  lemma ReplaceOnBundle(f: Fs, dest: Path, t: EDir, name: string, c: Codec)
    requires forall rel :: dest + rel in f <==> Find(t, rel).Some?
    requires forall rel :: dest + rel in f ==> f[dest + rel] == Find(t, rel).value
    ensures HoldsBundle(ReplacePlaceholders(f, dest, name, c), dest, t, name, c)
  {
    forall rel | dest + rel in f {
      PrefixOfAppend(dest, rel);
    }
  }

  lemma ReplaceOnCopy(f: Fs, dest: Path, before: Fs, src: Path, name: string, c: Codec)
    requires forall rel :: dest + rel in f <==> src + rel in before
    requires forall rel :: src + rel in before ==> f[dest + rel] == before[src + rel]
    ensures HoldsCopy(ReplacePlaceholders(f, dest, name, c), dest, before, src, name, c)
  {
    forall rel | src + rel in before {
      PrefixOfAppend(dest, rel);
    }
  }

  lemma ReplaceOutside(before: Fs, f: Fs, dest: Path, name: string, c: Codec)
    requires OutsideUnchanged(before, f, dest)
    requires OnlyDestGrows(before, f, dest)
    ensures OutsideUnchanged(before, ReplacePlaceholders(f, dest, name, c), dest)
    ensures OnlyDestGrows(before, ReplacePlaceholders(f, dest, name, c), dest)
  {
  }

  /**
    Scaffolding from the bundle into a destination that does not exist on a
    well-formed disk, below no regular file, with a template that exists.
   */
  lemma ScaffoldEmbeddedCopiesTemplate(fs: Fs, bundle: EDir, templateName: string, outputDir: Path, name: string, c: Codec)
    requires WellFormedFs(fs) && WellFormed(bundle)
    requires PathJoin(outputDir, name) !in fs && !Blocked(fs, PathJoin(outputDir, name))
    requires GetDir(bundle, templateName).Some?
    ensures var e := ScaffoldEmbedded(fs, bundle, templateName, outputDir, name, c);
      && e.Done?
      && HoldsBundle(e.fs, PathJoin(outputDir, name), GetDir(bundle, templateName).value, name, c)
      && OutsideUnchanged(fs, e.fs, PathJoin(outputDir, name))
      && OnlyDestGrows(fs, e.fs, PathJoin(outputDir, name))
  {
    var dest := PathJoin(outputDir, name);
    var t := GetDir(bundle, templateName).value;
    var i :| 0 <= i < |bundle.dirs| && bundle.dirs[i] == t;
    AbsentIsFresh(fs, dest);
    ExtractCopiesTemplate(fs, t, dest);
    var f := Extract(fs, t, dest).fs;
    assert OutsideUnchanged(fs, f, dest);
    assert OnlyDestGrows(fs, f, dest) by {
      forall q | q in f && q !in fs && !IsPrefix(dest, q)
        ensures IsPrefix(q, dest)
      {
        assert q in CreateDirAll(fs, dest).fs;
      }
    }
    ReplaceOnBundle(f, dest, t, name, c);
    ReplaceOutside(fs, f, dest, name, c);
    assert ScaffoldEmbedded(fs, bundle, templateName, outputDir, name, c) == Done(ReplacePlaceholders(f, dest, name, c));
  }

  /** The copy below a fresh `dest` is exactly the relocated template. */
  lemma CopyLayout(fs: Fs, src: Path, dest: Path)
    requires Fresh(fs, dest) && !Blocked(fs, dest) && IsDir(fs, src)
    ensures forall rel :: dest + rel in CreateDirAll(fs, dest).fs + Relocate(fs, src, dest) <==> src + rel in fs
    ensures forall rel :: src + rel in fs ==>
      (CreateDirAll(fs, dest).fs + Relocate(fs, src, dest))[dest + rel] == fs[src + rel]
  {
    assert src + [] == src && dest + [] == dest;
  }

  /**
    Scaffolding from a template directory on disk into a destination that does
    not exist on a well-formed disk, below no regular file.
   */
  lemma ScaffoldFsCopiesTemplate(fs: Fs, templateDir: Path, outputDir: Path, name: string, c: Codec)
    requires WellFormedFs(fs) && IsDir(fs, templateDir)
    requires PathJoin(outputDir, name) !in fs && !Blocked(fs, PathJoin(outputDir, name))
    ensures var e := ScaffoldFs(fs, templateDir, outputDir, name, c);
      && e.Done?
      && HoldsCopy(e.fs, PathJoin(outputDir, name), fs, templateDir, name, c)
      && OutsideUnchanged(fs, e.fs, PathJoin(outputDir, name))
      && OnlyDestGrows(fs, e.fs, PathJoin(outputDir, name))
  {
    var dest := PathJoin(outputDir, name);
    AbsentIsFresh(fs, dest);
    var f1 := CreateDirAll(fs, dest).fs;
    var m := Relocate(fs, templateDir, dest);
    var f := f1 + m;
    assert CopyTree(fs, templateDir, dest) == Done(f);
    CopyLayout(fs, templateDir, dest);
    assert OutsideUnchanged(fs, f, dest) by {
      forall q | q in fs && !IsPrefix(dest, q)
        ensures q in f && f[q] == fs[q]
      {
        assert q !in m;
      }
    }
    assert OnlyDestGrows(fs, f, dest) by {
      forall q | q in f && q !in fs && !IsPrefix(dest, q)
        ensures IsPrefix(q, dest)
      {
        assert q in f1;
      }
    }
    ReplaceOnCopy(f, dest, fs, templateDir, name, c);
    ReplaceOutside(fs, f, dest, name, c);
    assert ScaffoldFs(fs, templateDir, outputDir, name, c) == Done(ReplacePlaceholders(f, dest, name, c));
  }
}

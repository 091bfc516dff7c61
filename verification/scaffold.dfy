/**
  The scaffold engine: copy a template to `output_dir/project_name`, then
  substitute the project name for the placeholder in the contents of every
  regular file there that reads as text; and the two ways of listing the
  available templates.
 */
module Scaffold {
  import opened Wrappers
  import opened FileTree
  import opened Text
  import opened Order
  import opened Embedded

  /**
    How file bytes read as text: `decode` is `fs::read_to_string`'s UTF-8
    check (`None` for bytes that are not text), `encode` is what `fs::write`
    stores for a `String`.
   */
  datatype Codec = Codec(decode: Bytes -> Option<string>, encode: string -> Bytes)

  /** Writing back decoded text reproduces the original bytes, as UTF-8 does. */
  ghost predicate Lawful(c: Codec) {
    forall b, t :: c.decode(b) == Some(t) ==> c.encode(t) == b
  }

  // ---------------------------------------------------------------------------
  // replace_placeholders

  /**
    What `replace_placeholders` does to one entry: a directory or a file that
    does not read as text is left alone, so is a text file without the
    placeholder; any other file gets the pieces of its text between the
    placeholders, joined by the project name.
   */
  function Rewrite(n: Node, name: string, c: Codec): (r: Node)
    ensures n.Dir? ==> r == Dir
    ensures n.File? && c.decode(n.contents).None? ==> r == n
    ensures n.File? && c.decode(n.contents).Some? && !Contains(c.decode(n.contents).value, Token) ==> r == n
    ensures n.File? && c.decode(n.contents).Some? && Contains(c.decode(n.contents).value, Token) ==>
      r == File(c.encode(Join(Pieces(c.decode(n.contents).value, Token), name)))
  {
    match n
    case Dir => Dir
    case File(b) =>
      match c.decode(b)
      case None => n
      case Some(t) =>
        if Contains(t, Token) then
          ReplaceIsJoinOfPieces(t, Token, name);
          File(c.encode(ReplaceAll(t, Token, name)))
        else n
  }

  /** The placeholder replaced by itself leaves every entry byte-identical. */
  lemma RewriteByTokenIsIdentity(n: Node, c: Codec)
    requires Lawful(c)
    ensures Rewrite(n, Token, c) == n
  {
    if n.File? && c.decode(n.contents).Some? {
      ReplaceBySelf(c.decode(n.contents).value, Token);
    }
  }

  /**
    `replace_placeholders(root, name)`: every entry at or below `root` is
    rewritten, nothing else changes, and no path appears or disappears.
   */
  function ReplacePlaceholders(fs: Fs, root: Path, name: string, c: Codec): (r: Fs)
    ensures r.Keys == fs.Keys
    ensures forall p :: p in fs && !IsPrefix(root, p) ==> r[p] == fs[p]
    ensures forall p :: p in fs && IsPrefix(root, p) ==> r[p] == Rewrite(fs[p], name, c)
  {
    map p | p in fs :: if IsPrefix(root, p) then Rewrite(fs[p], name, c) else fs[p]
  }

  /** With the placeholder as the project name the disk is left as it was. */
  lemma ReplaceByTokenIsIdentity(fs: Fs, root: Path, c: Codec)
    requires Lawful(c)
    ensures ReplacePlaceholders(fs, root, Token, c) == fs
  {
    forall p | p in fs {
      RewriteByTokenIsIdentity(fs[p], c);
    }
  }

  // ---------------------------------------------------------------------------
  // scaffold

  /** The entries at or below `src`, moved to the same places below `dest`. */
  function Relocate(fs: Fs, src: Path, dest: Path): (m: map<Path, Node>)
    ensures forall rel :: dest + rel in m <==> src + rel in fs
    ensures forall rel :: src + rel in fs ==> m[dest + rel] == fs[src + rel]
    ensures forall q :: q in m ==> IsPrefix(dest, q)
  {
    assert forall p :: IsPrefix(src, p) ==> p == src + p[|src|..];
    forall p1, p2 | IsPrefix(src, p1) && IsPrefix(src, p2) && dest + p1[|src|..] == dest + p2[|src|..]
      ensures p1 == p2
    {
      assert p1[|src|..] == (dest + p1[|src|..])[|dest|..];
      assert p2[|src|..] == (dest + p2[|src|..])[|dest|..];
    }
    var m := map p | p in fs && IsPrefix(src, p) :: dest + p[|src|..] := fs[p];
    forall rel
      ensures dest + rel in m <==> src + rel in fs
      ensures src + rel in fs ==> m[dest + rel] == fs[src + rel]
    {
      var p := src + rel;
      assert IsPrefix(src, p) && p[|src|..] == rel;
      if dest + rel in m {
        var p' :| p' in fs && IsPrefix(src, p') && dest + p'[|src|..] == dest + rel;
        assert p'[|src|..] == (dest + p'[|src|..])[|dest|..];
        assert p' == p;
      }
    }
    forall q | q in m
      ensures IsPrefix(dest, q)
    {
      var p' :| p' in fs && IsPrefix(src, p') && q == dest + p'[|src|..];
      assert q[..|dest|] == dest;
    }
    m
  }

  /**
    `fs_extra::dir::copy(src, dest)` with `copy_inside`, `dest` not existing:
    fails on a missing source directory, else creates `dest` and copies the
    whole tree below `src` to the same places below `dest`.
   */
  function CopyTree(fs: Fs, src: Path, dest: Path): (e: Effect)
    ensures !IsDir(fs, src) ==> e == Failed(fs, NotFound)
    ensures IsDir(fs, src) && Blocked(fs, dest) ==> e.Failed? && e.fs == fs
    ensures IsDir(fs, src) && !Blocked(fs, dest) ==>
      e == Done(CreateDirAll(fs, dest).fs + Relocate(fs, src, dest))
  {
    if !IsDir(fs, src) then Failed(fs, NotFound)
    else
      match CreateDirAll(fs, dest)
      case Failed(f, k) => Failed(f, k)
      case Done(f1) => Done(f1 + Relocate(fs, src, dest))
  }

  /**
    `scaffold(template_dir, output_dir, project_name)`: an existing destination
    (even an empty directory) is refused before anything is written; a failed
    copy surfaces as `Other`; otherwise the copy has its placeholders replaced.
   */
  function ScaffoldFs(fs: Fs, templateDir: Path, outputDir: Path, name: string, c: Codec): (e: Effect)
    ensures PathJoin(outputDir, name) in fs ==> e == Failed(fs, AlreadyExists)
    ensures PathJoin(outputDir, name) !in fs && !IsDir(fs, templateDir) ==> e == Failed(fs, Other)
    ensures e.Done? ==> exists f :: (CopyTree(fs, templateDir, PathJoin(outputDir, name)) == Done(f)
      && e.fs == ReplacePlaceholders(f, PathJoin(outputDir, name), name, c))
  {
    var dest := PathJoin(outputDir, name);
    if dest in fs then Failed(fs, AlreadyExists)
    else
      match CopyTree(fs, templateDir, dest)
      case Failed(f, _) => Failed(f, Other)
      case Done(f) => Done(ReplacePlaceholders(f, dest, name, c))
  }

  /**
    `scaffold_embedded(bundle, template_name, output_dir, project_name)`: the
    destination check comes first, then the template lookup, then extraction
    and replacement.
   */
  function ScaffoldEmbedded(fs: Fs, bundle: EDir, templateName: string, outputDir: Path, name: string, c: Codec): (e: Effect)
    ensures PathJoin(outputDir, name) in fs ==> e == Failed(fs, AlreadyExists)
    ensures PathJoin(outputDir, name) !in fs && GetDir(bundle, templateName).None? ==> e == Failed(fs, NotFound)
    ensures e.Done? ==> GetDir(bundle, templateName).Some?
    ensures e.Done? ==> exists f :: (Extract(fs, GetDir(bundle, templateName).value, PathJoin(outputDir, name)) == Done(f)
      && e.fs == ReplacePlaceholders(f, PathJoin(outputDir, name), name, c))
  {
    var dest := PathJoin(outputDir, name);
    if dest in fs then Failed(fs, AlreadyExists)
    else
      match GetDir(bundle, templateName)
      case None => Failed(fs, NotFound)
      case Some(t) =>
        match Extract(fs, t, dest)
        case Failed(f, k) => Failed(f, k)
        case Done(f) => Done(ReplacePlaceholders(f, dest, name, c))
  }

  // ---------------------------------------------------------------------------
  // list_templates, list_templates_embedded, resolve_template_dir

  /** The names of the sub-directories of `root` that are valid strings. */
  ghost function ChildDirNames(fs: Fs, root: Path): set<string> {
    set p: Path | p in fs && |p| == |root| + 1 && IsPrefix(root, p) && fs[p] == Dir && p[|root|].Seg? :: p[|root|].text
  }

  /** `fs::read_dir` hands out the entries of a directory in no particular order. */
  ghost function Enumerate(s: set<string>): (r: seq<string>)
    ensures |r| == |s|
    ensures forall x :: x in r <==> x in s
    decreases |s|
  {
    if s == {} then []
    else
      var x :| x in s;
      [x] + Enumerate(s - {x})
  }

  /**
    `list_templates(root)`: fails when `root` is not a readable directory;
    otherwise the sorted names of exactly its sub-directories with valid
    names, regular files excluded, each once.
   */
  ghost function ListTemplates(fs: Fs, root: Path): (r: Result<seq<string>, ErrorKind>)
    ensures r.Ok? <==> IsDir(fs, root)
    ensures r.Ok? ==> Sorted(r.value)
    ensures r.Ok? ==> forall t :: t in r.value <==> IsDir(fs, root + [Seg(t)])
    ensures r.Ok? ==> |r.value| == |ChildDirNames(fs, root)|
  {
    if !IsDir(fs, root) then Err(if root in fs then NotADirectory else NotFound)
    else
      var listed := Enumerate(ChildDirNames(fs, root));
      SortKeepsMembers(listed);
      ChildDirNamesMeaning(fs, root);
      Ok(Sort(listed))
  }

  /**
    Whatever order `read_dir` yields the sub-directory names in, each once,
    sorting them gives the listing.
   */
  lemma ListingIgnoresReadDirOrder(fs: Fs, root: Path, xs: seq<string>)
    requires IsDir(fs, root)
    requires |xs| == |ChildDirNames(fs, root)|
    requires forall t :: t in xs <==> t in ChildDirNames(fs, root)
    ensures ListTemplates(fs, root) == Ok(Sort(xs))
  {
    var names := ChildDirNames(fs, root);
    var listed := Enumerate(names);
    ExactCoverIsDistinct(xs, names);
    ExactCoverIsDistinct(listed, names);
    SameMembersSameSort(xs, listed);
  }

  lemma ChildDirNamesMeaning(fs: Fs, root: Path)
    ensures forall t :: t in ChildDirNames(fs, root) <==> IsDir(fs, root + [Seg(t)])
  {
    forall t
      ensures t in ChildDirNames(fs, root) <==> IsDir(fs, root + [Seg(t)])
    {
      var p := root + [Seg(t)];
      assert p[|root|] == Seg(t) && p[..|root|] == root;
      if t in ChildDirNames(fs, root) {
        var q: Path :| q in fs && |q| == |root| + 1 && IsPrefix(root, q) && fs[q] == Dir && q[|root|].Seg? && q[|root|].text == t;
        assert q == q[..|root|] + [q[|root|]];
      }
    }
  }

  /** The bundled directory names that are valid strings, in bundle order. */
  function TextNames(ds: seq<EDir>): (r: seq<string>)
    ensures forall t :: t in r <==> exists i :: 0 <= i < |ds| && ds[i].name == Seg(t)
    decreases |ds|
  {
    if |ds| == 0 then []
    else
      var rest := TextNames(ds[1..]);
      assert forall t :: (exists i :: 0 <= i < |ds[1..]| && ds[1..][i].name == Seg(t)) <==>
        (exists i :: 1 <= i < |ds| && ds[i].name == Seg(t)) by {
        forall t
          ensures (exists i :: 0 <= i < |ds[1..]| && ds[1..][i].name == Seg(t)) ==>
            (exists i :: 1 <= i < |ds| && ds[i].name == Seg(t))
        {
          if i :| 0 <= i < |ds[1..]| && ds[1..][i].name == Seg(t) {
            assert ds[i + 1].name == Seg(t);
          }
        }
        forall t
          ensures (exists i :: 1 <= i < |ds| && ds[i].name == Seg(t)) ==>
            (exists i :: 0 <= i < |ds[1..]| && ds[1..][i].name == Seg(t))
        {
          if i :| 1 <= i < |ds| && ds[i].name == Seg(t) {
            assert ds[1..][i - 1].name == Seg(t);
          }
        }
      }
      match ToStr(ds[0].name)
      case Some(t) => [t] + rest
      case None => rest
  }

  /**
    `list_templates_embedded(bundle)`: the sorted names of exactly the
    bundle's top-level directories with valid names; its files are excluded.
   */
  function ListTemplatesEmbedded(bundle: EDir): (r: seq<string>)
    ensures Sorted(r)
    ensures forall t :: t in r <==> GetDir(bundle, t).Some?
    ensures multiset(r) == multiset(TextNames(bundle.dirs))
  {
    var names := TextNames(bundle.dirs);
    SortKeepsMembers(names);
    Sort(names)
  }

  /** `resolve_template_dir(root, name)`: the template called `name` inside `root`. */
  function ResolveTemplateDir(root: Path, name: string): Path
  {
    PathJoin(root, name)
  }

  /**
    On a well-formed disk every listed template name resolves to that
    template's directory, one level below the root.
   */
  lemma ListedResolves(fs: Fs, root: Path, t: string)
    requires WellFormedFs(fs) && IsDir(fs, root)
    requires t in ListTemplates(fs, root).value
    ensures t != ""
    ensures ResolveTemplateDir(root, t) == root + [Seg(t)]
    ensures IsDir(fs, ResolveTemplateDir(root, t))
  {
    var p := root + [Seg(t)];
    assert p in fs && p[|root|] == Seg(t);
  }
}

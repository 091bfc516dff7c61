/**
  The command itself (`run` in `main.rs`): find a `templates/` directory on
  disk or fall back to the bundle, list what it offers, pick one template
  from the command line or an interactive prompt, and scaffold it.
 */
module App {
  import opened Wrappers
  import opened FileTree
  import opened Order
  import opened Embedded
  import opened Scaffold
  import opened ScaffoldProofs

  /** The directory name searched for. */
  const TemplatesName: string := "templates"

  /** `dir` has a `templates` sub-directory. */
  predicate HasTemplates(fs: Fs, dir: Path) {
    IsDir(fs, dir + [Seg(TemplatesName)])
  }

  /**
    `dir[..k]` is the deepest ancestor of `dir` (counting `dir` itself) that
    has a `templates` sub-directory.
   */
  ghost predicate Nearest(fs: Fs, dir: Path, k: int) {
    && 0 <= k <= |dir|
    && HasTemplates(fs, dir[..k])
    && forall j :: k < j <= |dir| ==> !HasTemplates(fs, dir[..j])
  }

  /** No ancestor of `dir`, nor `dir` itself, has a `templates` sub-directory. */
  ghost predicate NoneUp(fs: Fs, dir: Path) {
    forall j :: 0 <= j <= |dir| ==> !HasTemplates(fs, dir[..j])
  }

  /**
    The walk from `dir` towards the root: the first directory on the way with
    a `templates` sub-directory gives the answer, the root is tried last.
   */
  function WalkUp(fs: Fs, dir: Path): (r: Option<Path>)
    ensures r.Some? ==> exists k :: Nearest(fs, dir, k) && r.value == dir[..k] + [Seg(TemplatesName)]
    ensures r.None? ==> NoneUp(fs, dir)
    decreases |dir|
  {
    if HasTemplates(fs, dir) then
      assert dir[..|dir|] == dir;
      assert Nearest(fs, dir, |dir|);
      Some(dir + [Seg(TemplatesName)])
    else if |dir| == 0 then
      assert dir[..0] == dir;
      None
    else
      var up := dir[..|dir| - 1];
      var r := WalkUp(fs, up);
      assert forall j :: 0 <= j <= |up| ==> up[..j] == dir[..j];
      assert dir[..|dir|] == dir;
      forall k | Nearest(fs, up, k)
        ensures Nearest(fs, dir, k)
      {
      }
      r
  }

  /** The walk as `find_templates_root` writes it: a loop over `dir.pop()`. */
  method WalkUpLoop(fs: Fs, cwd: Path) returns (r: Option<Path>)
    ensures r == WalkUp(fs, cwd)
    ensures r.Some? ==> exists k :: Nearest(fs, cwd, k) && r.value == cwd[..k] + [Seg(TemplatesName)]
    ensures r.None? ==> NoneUp(fs, cwd)
  {
    var dir := cwd;
    while true
      invariant |dir| <= |cwd| && dir == cwd[..|dir|]
      invariant WalkUp(fs, dir) == WalkUp(fs, cwd)
      decreases |dir|
    {
      var candidate := dir + [Seg(TemplatesName)];
      if candidate in fs && fs[candidate] == Dir {
        return Some(candidate);
      }
      if |dir| == 0 {
        break;
      }
      dir := dir[..|dir| - 1];
    }
    return None;
  }

  /**
    What `find_templates_root` may ask of its environment:
    `CARGO_MANIFEST_DIR` (absent when unset or not Unicode), the working
    directory (absent when it cannot be determined), and `canonicalize`.
   */
  datatype Env = Env(manifestDir: Option<Path>, cwd: Option<Path>, canonicalize: Path -> Option<Path>)

  /** `<manifest>/../templates` with the `..` resolved. */
  function ManifestCandidate(manifest: Path): Path
  {
    Parent(manifest) + [Seg(TemplatesName)]
  }

  /**
    `<manifest>/../templates` is a directory. The operating system looks the
    manifest directory up before `..` steps back out of it, so the manifest
    directory has to exist as a directory too.
   */
  predicate ManifestHasTemplates(fs: Fs, manifest: Path) {
    IsDir(fs, manifest) && IsDir(fs, ManifestCandidate(manifest))
  }

  /**
    `find_templates_root()`: the `templates` directory beside the crate
    directory wins when it can be reached, and then a failing `canonicalize`
    gives no root at all rather than falling back; otherwise the nearest
    `templates` from the working directory up, and none when there is no
    working directory.
   */
  function FindTemplatesRoot(fs: Fs, env: Env): (r: Option<Path>)
    ensures env.manifestDir.Some? && ManifestHasTemplates(fs, env.manifestDir.value) ==>
      r == env.canonicalize(ManifestCandidate(env.manifestDir.value))
    ensures !(env.manifestDir.Some? && ManifestHasTemplates(fs, env.manifestDir.value)) ==>
      && (env.cwd.None? ==> r.None?)
      && (env.cwd.Some? && r.Some? ==> (IsDir(fs, r.value)
           && exists k :: Nearest(fs, env.cwd.value, k) && r.value == env.cwd.value[..k] + [Seg(TemplatesName)]))
      && (env.cwd.Some? && r.None? ==> NoneUp(fs, env.cwd.value))
  {
    if env.manifestDir.Some? && ManifestHasTemplates(fs, env.manifestDir.value) then
      env.canonicalize(ManifestCandidate(env.manifestDir.value))
    else if env.cwd.None? then None
    else WalkUp(fs, env.cwd.value)
  }

  /** A manifest-side `templates` whose canonical form cannot be had hides every other one. */
  lemma CanonicalizeFailureHidesCwd(fs: Fs, env: Env)
    requires env.manifestDir.Some? && ManifestHasTemplates(fs, env.manifestDir.value)
    requires env.canonicalize(ManifestCandidate(env.manifestDir.value)).None?
    ensures FindTemplatesRoot(fs, env).None?
  {
  }

  /**
    A manifest directory that does not exist (or is a regular file) is
    passed over, even when a `templates` directory sits where its sibling
    would be: the search falls back to the working directory.
   */
  lemma MissingManifestDirFallsBack(fs: Fs, env: Env)
    requires env.manifestDir.Some? && !IsDir(fs, env.manifestDir.value)
    requires env.cwd.Some?
    ensures FindTemplatesRoot(fs, env) == WalkUp(fs, env.cwd.value)
  {
  }

  // ---------------------------------------------------------------------------
  // run

  /** `TemplateSource`. */
  datatype Source = Filesystem(root: Path) | Bundled

  /** A root on disk is preferred; without one the bundle is used. */
  function ChooseSource(found: Option<Path>): Source
  {
    match found
    case Some(root) => Filesystem(root)
    case None => Bundled
  }

  /** The templates a source offers; only listing a directory can fail. */
  ghost function Available(fs: Fs, src: Source, bundle: EDir): (r: Result<seq<string>, ErrorKind>)
    ensures src.Bundled? ==> r.Ok?
    ensures src.Filesystem? ==> (r.Ok? <==> IsDir(fs, src.root))
    ensures r.Ok? ==> Sorted(r.value)
    ensures r.Ok? && src.Filesystem? ==> forall t :: t in r.value <==> IsDir(fs, src.root + [Seg(t)])
    ensures r.Ok? && src.Bundled? ==> forall t :: t in r.value <==> GetDir(bundle, t).Some?
  {
    match src
    case Filesystem(root) => ListTemplates(fs, root)
    case Bundled => Ok(ListTemplatesEmbedded(bundle))
  }

  /** Why a run stops without creating a project. */
  datatype Failure =
    | ListFailed(kind: ErrorKind)
    | NoTemplates
    | UnknownTemplate(name: string, available: seq<string>)
    | PromptFailed
    | NoCwd
    | ScaffoldFailed(kind: ErrorKind)

  /**
    The interactive selection: the index the user picks among the items shown,
    or `None` when the terminal interaction fails. The prompt never answers
    with an index outside the list.
   */
  ghost predicate ValidPrompt(prompt: seq<string> -> Option<nat>) {
    forall items :: prompt(items).Some? ==> prompt(items).value < |items|
  }

  /**
    The template choice: a name given on the command line must be one of the
    available ones; without one the user picks from the list.
   */
  function SelectTemplate(available: seq<string>, arg: Option<string>, prompt: seq<string> -> Option<nat>): (r: Result<string, Failure>)
    requires ValidPrompt(prompt)
    ensures r.Ok? ==> r.value in available
    ensures arg.Some? ==> (r.Ok? <==> arg.value in available)
    ensures arg.Some? && r.Ok? ==> r.value == arg.value
    ensures arg.Some? && r.Err? ==> r.error == UnknownTemplate(arg.value, available)
    ensures arg.None? ==> (r.Ok? <==> prompt(available).Some?)
    ensures arg.None? && r.Ok? ==> r.value == available[prompt(available).value]
    ensures arg.None? && r.Err? ==> r.error == PromptFailed
  {
    match arg
    case Some(t) => if t in available then Ok(t) else Err(UnknownTemplate(t, available))
    case None =>
      match prompt(available)
      case Some(i) => Ok(available[i])
      case None => Err(PromptFailed)
  }

  /** The command line, as far as `run` reads it. */
  datatype Args = Args(template: Option<string>, name: string, outputDir: Option<Path>)

  /** `--output-dir`, else the working directory; `None` is the panic when there is none. */
  function OutputDir(args: Args, env: Env): Option<Path>
  {
    if args.outputDir.Some? then args.outputDir else env.cwd
  }

  /** The scaffold call for the chosen source. */
  function ScaffoldFrom(fs: Fs, source: Source, bundle: EDir, t: string, out: Path, name: string, c: Codec): Effect {
    match source
    case Filesystem(root) => ScaffoldFs(fs, ResolveTemplateDir(root, t), out, name, c)
    case Bundled => ScaffoldEmbedded(fs, bundle, t, out, name, c)
  }

  /** How a run ends, with the disk it leaves. */
  datatype Exit = Created(fs: Fs) | Aborted(fs: Fs, why: Failure)

  /** What `run` settles before it touches the disk. */
  datatype Plan = Plan(template: string, out: Path)

  /**
    The part of `run()` between listing and scaffolding: a failed listing
    ends the run, so does an empty list; then the template is chosen, then
    the output directory.
   */
  function Prepare(listing: Result<seq<string>, ErrorKind>, env: Env, args: Args, prompt: seq<string> -> Option<nat>): (r: Result<Plan, Failure>)
    requires ValidPrompt(prompt)
    ensures listing.Err? ==> r == Err(ListFailed(listing.error))
    ensures listing == Ok([]) ==> r == Err(NoTemplates)
    ensures r.Err? ==> !r.error.ScaffoldFailed?
    ensures r.Err? && r.error.UnknownTemplate? ==>
      args.template == Some(r.error.name) && listing == Ok(r.error.available) && r.error.name !in r.error.available
    ensures r.Ok? ==> listing.Ok? && r.value.template in listing.value
    ensures r.Ok? && args.template.Some? ==> r.value.template == args.template.value
    ensures r.Ok? ==> OutputDir(args, env) == Some(r.value.out)
  {
    match listing
    case Err(k) => Err(ListFailed(k))
    case Ok(available) =>
      if |available| == 0 then Err(NoTemplates)
      else
        match SelectTemplate(available, args.template, prompt)
        case Err(why) => Err(why)
        case Ok(t) =>
          match OutputDir(args, env)
          case None => Err(NoCwd)
          case Some(out) => Ok(Plan(t, out))
  }

  /**
    `run()`: every failure before scaffolding leaves the disk untouched;
    a failed scaffold keeps whatever it had already written.
   */
  ghost function Run(fs: Fs, env: Env, bundle: EDir, args: Args, prompt: seq<string> -> Option<nat>, c: Codec): (o: Exit)
    requires ValidPrompt(prompt)
    ensures o.Aborted? && !o.why.ScaffoldFailed? ==> o.fs == fs
    ensures o.Aborted? && o.why.UnknownTemplate? ==> args.template == Some(o.why.name) && o.why.name !in o.why.available
  {
    var source := ChooseSource(FindTemplatesRoot(fs, env));
    match Prepare(Available(fs, source, bundle), env, args, prompt)
    case Err(why) => Aborted(fs, why)
    case Ok(plan) =>
      var e := ScaffoldFrom(fs, source, bundle, plan.template, plan.out, args.name, c);
      if e.Done? then Created(e.fs) else Aborted(e.fs, ScaffoldFailed(e.kind))
  }

  // ---------------------------------------------------------------------------
  // Properties of a run

  /** An empty list of templates ends the run, whatever was asked for. */
  lemma NoTemplatesStops(fs: Fs, env: Env, bundle: EDir, args: Args, prompt: seq<string> -> Option<nat>, c: Codec)
    requires ValidPrompt(prompt)
    requires Available(fs, ChooseSource(FindTemplatesRoot(fs, env)), bundle) == Ok([])
    ensures Run(fs, env, bundle, args, prompt, c) == Aborted(fs, NoTemplates)
  {
  }

  /** A template named on the command line that is not offered ends the run, listing what is. */
  lemma UnknownTemplateStops(fs: Fs, env: Env, bundle: EDir, args: Args, prompt: seq<string> -> Option<nat>, c: Codec, available: seq<string>)
    requires ValidPrompt(prompt)
    requires Available(fs, ChooseSource(FindTemplatesRoot(fs, env)), bundle) == Ok(available)
    requires |available| > 0 && args.template.Some? && args.template.value !in available
    ensures Run(fs, env, bundle, args, prompt, c) == Aborted(fs, UnknownTemplate(args.template.value, available))
  {
  }

  /** With templates on disk the bundle plays no part. */
  lemma DiskRootIgnoresBundle(fs: Fs, env: Env, b1: EDir, b2: EDir, args: Args, prompt: seq<string> -> Option<nat>, c: Codec)
    requires ValidPrompt(prompt)
    requires FindTemplatesRoot(fs, env).Some?
    ensures Run(fs, env, b1, args, prompt, c) == Run(fs, env, b2, args, prompt, c)
  {
    var src := ChooseSource(FindTemplatesRoot(fs, env));
    assert Available(fs, src, b1) == Available(fs, src, b2);
    var p := Prepare(Available(fs, src, b1), env, args, prompt);
    if p.Ok? {
      assert ScaffoldFrom(fs, src, b1, p.value.template, p.value.out, args.name, c)
        == ScaffoldFrom(fs, src, b2, p.value.template, p.value.out, args.name, c);
    }
  }

  /**
    A project is created only from a template the source offers; when the
    command line names one, the project is scaffolded from that template.
   */
  lemma CreatedFromOffered(fs: Fs, env: Env, bundle: EDir, args: Args, prompt: seq<string> -> Option<nat>, c: Codec)
    requires ValidPrompt(prompt)
    requires Run(fs, env, bundle, args, prompt, c).Created?
    ensures var src := ChooseSource(FindTemplatesRoot(fs, env));
      && Available(fs, src, bundle).Ok?
      && |Available(fs, src, bundle).value| > 0
      && (args.template.Some? ==> args.template.value in Available(fs, src, bundle).value)
      && OutputDir(args, env).Some?
      && PathJoin(OutputDir(args, env).value, args.name) !in fs
    ensures args.template.Some? ==>
      var src := ChooseSource(FindTemplatesRoot(fs, env));
      var e := ScaffoldFrom(fs, src, bundle, args.template.value, OutputDir(args, env).value, args.name, c);
      e.Done? && Run(fs, env, bundle, args, prompt, c).fs == e.fs
  {
    var src := ChooseSource(FindTemplatesRoot(fs, env));
    var plan := Prepare(Available(fs, src, bundle), env, args, prompt).value;
    var e := ScaffoldFrom(fs, src, bundle, plan.template, plan.out, args.name, c);
    assert e.Done?;
    if src.Filesystem? {
      assert ScaffoldFs(fs, ResolveTemplateDir(src.root, plan.template), plan.out, args.name, c).Done?;
    } else {
      assert ScaffoldEmbedded(fs, bundle, plan.template, plan.out, args.name, c).Done?;
    }
  }

  /**
    From templates on disk, a valid choice into a free destination creates
    the project: the destination holds the chosen template directory's tree,
    rewritten, and nothing outside it changes.
   */
  lemma RunCopiesDiskTemplate(fs: Fs, env: Env, bundle: EDir, args: Args, prompt: seq<string> -> Option<nat>, c: Codec, root: Path, t: string, out: Path)
    requires ValidPrompt(prompt) && WellFormedFs(fs)
    requires FindTemplatesRoot(fs, env) == Some(root) && IsDir(fs, root)
    requires SelectTemplate(ListTemplates(fs, root).value, args.template, prompt) == Ok(t)
    requires OutputDir(args, env) == Some(out)
    requires PathJoin(out, args.name) !in fs && !Blocked(fs, PathJoin(out, args.name))
    ensures var o := Run(fs, env, bundle, args, prompt, c);
      && o.Created?
      && HoldsCopy(o.fs, PathJoin(out, args.name), fs, root + [Seg(t)], args.name, c)
      && OutsideUnchanged(fs, o.fs, PathJoin(out, args.name))
      && OnlyDestGrows(fs, o.fs, PathJoin(out, args.name))
  {
    ListedResolves(fs, root, t);
    assert Prepare(Available(fs, Filesystem(root), bundle), env, args, prompt) == Ok(Plan(t, out));
    ScaffoldFsCopiesTemplate(fs, root + [Seg(t)], out, args.name, c);
  }

  /**
    Without templates on disk, a valid choice into a free destination creates
    the project from the bundled template of that name.
   */
  lemma RunExtractsBundledTemplate(fs: Fs, env: Env, bundle: EDir, args: Args, prompt: seq<string> -> Option<nat>, c: Codec, t: string, out: Path)
    requires ValidPrompt(prompt) && WellFormedFs(fs) && WellFormed(bundle)
    requires FindTemplatesRoot(fs, env).None?
    requires SelectTemplate(ListTemplatesEmbedded(bundle), args.template, prompt) == Ok(t)
    requires OutputDir(args, env) == Some(out)
    requires PathJoin(out, args.name) !in fs && !Blocked(fs, PathJoin(out, args.name))
    ensures GetDir(bundle, t).Some?
    ensures var o := Run(fs, env, bundle, args, prompt, c);
      && o.Created?
      && HoldsBundle(o.fs, PathJoin(out, args.name), GetDir(bundle, t).value, args.name, c)
      && OutsideUnchanged(fs, o.fs, PathJoin(out, args.name))
      && OnlyDestGrows(fs, o.fs, PathJoin(out, args.name))
  {
    assert t in ListTemplatesEmbedded(bundle);
    assert Prepare(Available(fs, Bundled, bundle), env, args, prompt) == Ok(Plan(t, out));
    ScaffoldEmbeddedCopiesTemplate(fs, bundle, t, out, args.name, c);
  }
}

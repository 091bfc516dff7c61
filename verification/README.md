# vibe-generate scaffolding core, in Dafny

`vibe-generate` is a command-line tool that creates a new project from a
boilerplate template. A template is a directory tree. The tool copies it
to `<output_dir>/<project_name>` and then replaces every occurrence of the
placeholder `{{project-name}}` in the contents of the copied text files
with the project name. Templates come from one of two places:

- a `templates/` directory on disk: `<CARGO_MANIFEST_DIR>/../templates`,
  a sibling of the crate directory, or else `templates` in the working
  directory or the nearest ancestor that has one;
- a copy of that directory bundled into the binary at compile time.

This project models that core and proves what it does:

- `wrappers.dfy`: `Option` and `Result`.
- `filetree.dfy`: the disk. It is a map from paths to nodes, where a node
  is a directory or a regular file with its bytes. It also holds
  `Path::join`, `create_dir_all` and `fs::write`. An operation returns the
  disk it leaves behind, so a failure part-way keeps its earlier writes.
- `text.dfy`: `str::contains` and `str::replace`. Replacement is a
  left-to-right scan that replaces non-overlapping occurrences.
- `order.dfy`: the lexicographic order that `Vec<String>::sort` applies to
  template names, and an insertion sort with its permutation proof.
- `embedded.dfy`: the bundled directory tree and `extract_dir`.
- `extract_proofs.dfy`: extracting a well-formed bundled directory into a
  fresh destination succeeds and writes exactly the bundled tree below it.
- `scaffold.dfy`: `replace_placeholders`, `scaffold`, `scaffold_embedded`,
  `list_templates`, `list_templates_embedded` and `resolve_template_dir`.
- `scaffold_proofs.dfy`: a successful scaffold leaves the template's tree,
  rewritten, below the destination. Every existing entry outside the
  destination is unchanged; only the destination's missing ancestor
  directories are added.
- `app.dfy`: `find_templates_root` and `run`. These cover the choice of
  template source, the listing, the empty-list check, the template
  selection, the output directory and the scaffold call.

The model abstracts these things:

- Text decoding is a parameter: a `Codec` with `decode` (the UTF-8 check
  of `fs::read_to_string`) and `encode`. `Lawful` is the one law assumed
  where it matters: decoding and re-encoding returns the original bytes.
- `fs::read_dir` returns entries in no particular order, so the order is
  left unspecified (`Enumerate`).
  `Scaffold.ListingIgnoresReadDirOrder` shows that sorting any arrangement
  of the sub-directory names, each listed once, gives the same listing.
- The environment is a parameter: `CARGO_MANIFEST_DIR`, the working
  directory and `canonicalize`.
- The interactive prompt is a function from the list shown to the chosen
  index. It returns `None` when the terminal interaction fails.

Three behaviours of the code that the model keeps:

- Any existing destination is refused, including an empty directory
  (`dest.exists()`).
- Placeholders are replaced in file contents only. Paths are copied as they
  are.
- One replacement pass can create a new placeholder out of the text around
  a replaced one (`Text.SubstitutionCanLeaveToken`), so the output is not
  promised to be free of placeholders.

## Model

| member | source | states |
|---|---|---|
| `Text.Pieces` | vibe-generate/src/scaffold.rs:107 | the text between the occurrences the scan replaces has one more piece than there are occurrences, and the first piece is a prefix of the text |
| `Text.ReplaceIsJoinOfPieces` | vibe-generate/src/scaffold.rs:107 | `replace` is the pieces between non-overlapping left-to-right occurrences, joined by the replacement |
| `Text.ReplaceBySelf` | vibe-generate/src/scaffold.rs:107 | replacing the pattern by itself returns the text unchanged |
| `Text.SplitJoinRoundTrip` | vibe-generate/src/scaffold.rs:107 | splitting at the occurrences and joining with the pattern gives the original text back |
| `Text.ReplaceLength` | vibe-generate/src/scaffold.rs:107 | the result's length is the original length plus, for each replaced occurrence, the replacement length minus the pattern length |
| `Text.CountZeroIffAbsent` | vibe-generate/src/scaffold.rs:106-107 | the scan replaces nothing exactly when `contains` is false (both directions) |
| `Text.AbsentMeansUnchanged` | vibe-generate/src/scaffold.rs:106-107 | text without the placeholder is unchanged by `replace`, so the `contains` guard only saves a write |
| `Text.PiecesAreTokenFree` | vibe-generate/src/scaffold.rs:107 | no piece between replaced occurrences contains the pattern |
| `Text.ReplaceSkipsPrefix` | vibe-generate/src/scaffold.rs:107 | a prefix in which no occurrence starts is copied as it is, and the scan carries on after it |
| `Text.SubstitutionCanLeaveToken` | vibe-generate/src/scaffold.rs:106-108 | `{{project-{{project-name}}name}}` with the empty project name becomes `{{project-name}}`, so a single pass can leave a placeholder behind |
| `Order.LeTotal` | vibe-generate/src/scaffold.rs:129 | any two names are comparable in the order `sort` uses |
| `Order.LeTransitive` | vibe-generate/src/scaffold.rs:129 | the order is transitive |
| `Order.LeAntisymmetric` | vibe-generate/src/scaffold.rs:129 | names that are each at most the other are equal |
| `Order.Insert` | vibe-generate/src/scaffold.rs:129 | inserting into a sorted list gives a sorted list holding the old elements plus the new one |
| `Order.Sort` | vibe-generate/src/scaffold.rs:129 | `sort` returns an ordered permutation of its input |
| `Order.SortKeepsMembers` | vibe-generate/src/scaffold.rs:129 | sorting keeps exactly the same names and the same length |
| `Order.SortedUnique` | vibe-generate/src/scaffold.rs:120-130 | two sorted lists of the same names are equal |
| `Order.SortIgnoresInputOrder` | vibe-generate/src/scaffold.rs:120-130 | the sorted listing does not depend on the order `read_dir` produced the names in |
| `Order.ExactCoverIsDistinct` | vibe-generate/src/scaffold.rs:120-127 | a sequence as long as a set that lists exactly its elements has no repeats |
| `Order.SameMembersSameSort` | vibe-generate/src/scaffold.rs:120-130 | two repeat-free sequences with the same names sort to the same list |
| `FileTree.JoinThenParent` | vibe-generate/src/scaffold.rs:13 | joining a non-empty name goes one level down: the result is one segment longer, starts with the directory, and its parent is that directory |
| `FileTree.JoinInjective` | vibe-generate/src/scaffold.rs:13 | two different non-empty names give two different paths under the same directory |
| `FileTree.Parent` | vibe-generate/src/main.rs:25 | the parent of a non-root path is the path without its last segment |
| `FileTree.MissingDirs` | vibe-generate/src/scaffold.rs:73 | the directories `create_dir_all` adds are exactly the missing prefixes of the path |
| `FileTree.CreateDirAll` | vibe-generate/src/scaffold.rs:73 | it fails exactly when the path or an ancestor is a regular file, and then changes nothing; on success every prefix is a directory, only missing prefixes are added, and existing entries keep their values |
| `FileTree.CreateKeepsWellFormed` | vibe-generate/src/scaffold.rs:73 | `create_dir_all` of a path with named components keeps every entry inside an existing directory |
| `FileTree.WriteKeepsWellFormed` | vibe-generate/src/scaffold.rs:81 | a successful `fs::write` keeps the disk well formed, leaves a regular file with exactly the bytes written, and no other entry appears, disappears or changes |
| `FileTree.AbsentIsFresh` | vibe-generate/src/scaffold.rs:15 | on a well-formed disk (every entry's parent exists), a path that does not exist has nothing below it |
| `Embedded.FindDir` | vibe-generate/src/scaffold.rs:55 | the lookup returns a sub-directory with that name, or none exists |
| `Embedded.GetDir` | vibe-generate/src/scaffold.rs:55-60 | `get_dir` finds a template exactly when a top-level bundled directory has that name |
| `Embedded.FilesAt` | vibe-generate/src/scaffold.rs:75-82 | the files of a directory land one level below the destination |
| `Embedded.Materialise` | vibe-generate/src/scaffold.rs:72-93 | the extracted tree has the destination as a directory and everything else below it |
| `Embedded.DirsAt` | vibe-generate/src/scaffold.rs:84-90 | each sub-directory's tree lands below the destination, under that sub-directory's own name |
| `ExtractProofs.WriteFilesAdds` | vibe-generate/src/scaffold.rs:75-82 | writing distinctly named new files into an existing directory adds exactly those files |
| `ExtractProofs.ExtractAdds` | vibe-generate/src/scaffold.rs:72-93 | extracting into a fresh, unblocked destination succeeds and adds the directory chain plus the bundled tree |
| `ExtractProofs.ExtractDirsAdds` | vibe-generate/src/scaffold.rs:84-90 | extracting the sub-directories one after another adds each one's tree below its own name |
| `ExtractProofs.MaterialiseLookup` | vibe-generate/src/scaffold.rs:72-93 | the extracted tree has an entry at `dest/rel` exactly when the bundle has one at `rel`, and it is the same entry |
| `ExtractProofs.ExtractCopiesTemplate` | vibe-generate/src/scaffold.rs:63 | after a successful extraction, `dest/rel` holds what the bundle holds at `rel`; outside `dest`, only the missing ancestors are new, and existing entries are unchanged |
| `Scaffold.Rewrite` | vibe-generate/src/scaffold.rs:100-109 | directories, files that do not decode as text, and text without the placeholder are left alone; any other file becomes its pieces joined by the project name |
| `Scaffold.RewriteByTokenIsIdentity` | vibe-generate/src/scaffold.rs:105-108 | with a lawful codec, using the placeholder itself as the project name leaves each entry byte-identical |
| `Scaffold.ReplacePlaceholders` | vibe-generate/src/scaffold.rs:97-114 | no path appears or disappears; every entry at or below the root is rewritten, and nothing else changes |
| `Scaffold.ReplaceByTokenIsIdentity` | vibe-generate/src/scaffold.rs:97-114 | with a lawful codec, replacing the placeholder by itself leaves the whole disk unchanged |
| `Scaffold.Relocate` | vibe-generate/src/scaffold.rs:22-31 | the copy has an entry at `dest/rel` exactly when the source has one at `src/rel`, with the same value, and nothing outside `dest` |
| `Scaffold.CopyTree` | vibe-generate/src/scaffold.rs:22-31 | the copy fails on a missing template directory; if `dest` is below a file it fails with the disk unchanged; otherwise it creates `dest` and places the relocated tree there |
| `Scaffold.ScaffoldFs` | vibe-generate/src/scaffold.rs:12-37 | an existing destination fails with `AlreadyExists` before anything is written; a failed copy is `Other`; success is the copy with its placeholders replaced |
| `Scaffold.ScaffoldEmbedded` | vibe-generate/src/scaffold.rs:40-69 | the destination check comes before the template lookup; an unknown template is `NotFound` with the disk untouched; success is the extraction with its placeholders replaced |
| `Scaffold.Enumerate` | vibe-generate/src/scaffold.rs:120 | `read_dir` hands out each name of the set exactly once, in some order |
| `Scaffold.ListTemplates` | vibe-generate/src/scaffold.rs:117-131 | the listing fails exactly when the root is not a directory; otherwise it is sorted and holds exactly the names of the sub-directories, with regular files excluded and no duplicates |
| `Scaffold.ChildDirNamesMeaning` | vibe-generate/src/scaffold.rs:120-126 | a name is collected exactly when `root/name` is a directory |
| `Scaffold.TextNames` | vibe-generate/src/scaffold.rs:135-138 | the collected names are exactly the valid-string names of the bundled directories |
| `Scaffold.ListTemplatesEmbedded` | vibe-generate/src/scaffold.rs:134-141 | the list is sorted, holds a name exactly when `get_dir` finds it, and is a permutation of the collected names |
| `Scaffold.ListingIgnoresReadDirOrder` | vibe-generate/src/scaffold.rs:120-130 | whatever order `read_dir` yields the sub-directory names in, each once, sorting them gives the listing |
| `Scaffold.ListedResolves` | vibe-generate/src/scaffold.rs:144-146 | on a well-formed disk every name the listing offers is non-empty and resolves to an existing directory one level below the root |
| `ScaffoldProofs.CopyLayout` | vibe-generate/src/scaffold.rs:22-31 | after the copy into a fresh `dest`, `dest/rel` holds exactly what `src/rel` held |
| `ScaffoldProofs.ReplaceOnCopy` | vibe-generate/src/scaffold.rs:34 | after replacement, the copy holds the rewritten template entries |
| `ScaffoldProofs.ReplaceOnBundle` | vibe-generate/src/scaffold.rs:66 | after replacement, the extraction holds the rewritten bundled entries |
| `ScaffoldProofs.ReplaceOutside` | vibe-generate/src/scaffold.rs:97-114 | replacement below `dest` changes nothing outside it and adds no path |
| `ScaffoldProofs.ScaffoldFsCopiesTemplate` | vibe-generate/src/scaffold.rs:12-37 | scaffolding a template directory into a free destination succeeds; `dest/rel` then holds the rewritten `template/rel`, and outside `dest` only its missing ancestors are new |
| `ScaffoldProofs.ScaffoldEmbeddedCopiesTemplate` | vibe-generate/src/scaffold.rs:40-69 | scaffolding a bundled template into a free destination succeeds; `dest/rel` then holds the rewritten bundled entry, and outside `dest` only its missing ancestors are new |
| `App.WalkUp` | vibe-generate/src/main.rs:32-43 | the answer is `templates` inside the deepest ancestor of the working directory that has one; none when no ancestor has one |
| `App.WalkUpLoop` | vibe-generate/src/main.rs:32-43 | the `pop` loop finds the same nearest `templates` directory, or reports that none exists |
| `App.FindTemplatesRoot` | vibe-generate/src/main.rs:22-44 | when the manifest directory exists and its sibling `templates` is a directory, the result is whatever `canonicalize` returns for that sibling; otherwise it is the nearest `templates` directory up from the working directory, and none without a working directory |
| `App.MissingManifestDirFallsBack` | vibe-generate/src/main.rs:25-26 | a manifest directory that is not a directory on disk is passed over even if its would-be sibling `templates` exists; the search falls back to the working directory |
| `App.CanonicalizeFailureHidesCwd` | vibe-generate/src/main.rs:26-28 | if `canonicalize` fails on the manifest candidate, there is no root at all, even when the working directory has templates |
| `App.Available` | vibe-generate/src/main.rs:66-69 | only listing a directory can fail; either list is sorted and holds exactly the templates of its source |
| `App.SelectTemplate` | vibe-generate/src/main.rs:77-98 | a name given on the command line is accepted exactly when it is available, and is otherwise reported with the list; the prompt's pick is the listed name at that index; a failed prompt is an error |
| `App.Prepare` | vibe-generate/src/main.rs:66-102 | a failed listing or an empty list ends the run; a successful plan names an available template and the output directory |
| `App.Run` | vibe-generate/src/main.rs:52-119 | every failure before scaffolding leaves the disk untouched; an unknown template is the one given on the command line and is not in the list |
| `App.NoTemplatesStops` | vibe-generate/src/main.rs:71-74 | an empty list ends the run with the disk untouched |
| `App.UnknownTemplateStops` | vibe-generate/src/main.rs:78-87 | a requested template that is not offered ends the run with the disk untouched, and the failure carries the available names |
| `App.DiskRootIgnoresBundle` | vibe-generate/src/main.rs:60-69 | once templates are found on disk, the bundle makes no difference to the run |
| `App.CreatedFromOffered` | vibe-generate/src/main.rs:77-119 | a created project comes from a non-empty listing; a template named on the command line is in it, and the disk left behind is the scaffold of exactly that template into the output directory; the destination did not exist before |
| `App.RunCopiesDiskTemplate` | vibe-generate/src/main.rs:111-115 | with a root on disk and a free destination, the run creates the project from `root/<template>`, rewritten; every existing entry outside the destination is unchanged, and only the destination's missing ancestor directories are added |
| `App.RunExtractsBundledTemplate` | vibe-generate/src/main.rs:116-118 | without a root on disk and with a free destination, the run creates the project from the bundled template of that name, rewritten; every existing entry outside the destination is unchanged, and only the destination's missing ancestor directories are added |

## Left out

- Command-line parsing (`vibe-generate/src/cli.rs`, clap) is not part of this model. `App.Args` takes its three fields as given.
- Console output, colours, the `Error:` messages and exit codes are not modelled. `App.Exit` stands for success and for each reason `run` stops.
- Real I/O is not modelled; the disk is a value. Permissions, symbolic links, concurrent changes to the disk and file metadata are left out.
- The template payload (`templates/`) is not part of this model. Any tree of directories and files may be a template.
- FileTree.WellFormedFs: a disk entry never has an empty name, so `FileTree.WriteKeepsWellFormed` and `FileTree.CreateKeepsWellFormed` only speak of paths whose components are named. `Path::join` of the empty name is the directory itself, so the scaffolder never builds such a path.
- FileTree.PathJoin: names holding a separator, `.` or `..`, and absolute names are not modelled. The model appends one segment, so there is no way for it to escape the output directory. The code has no check that keeps the destination inside the output directory; a project name such as `../x` would escape it, and the model cannot express that case.
- Scaffold.CopyTree: `fs_extra`'s internals are not modelled. The copy either fails before it writes anything or copies the whole tree. A partial copy, and a destination inside the template directory, are not covered.
- Scaffold.ReplacePlaceholders: errors from the walk are skipped, as the code skips them. A failing `fs::write` of a rewritten file is not modelled, so replacement always succeeds.
- Scaffold.Rewrite: UTF-8 validation is the `Codec` parameter, not an implementation of UTF-8.
- Scaffold.ListTemplates: per-entry errors (`entry?` and `file_type()?`) are not modelled. Only a root that is not a directory fails, with `NotADirectory` or `NotFound`.
- Embedded.GetDir: `include_dir`'s `get_dir` also takes nested paths such as `a/b`. The model looks up a single top-level name, which is how `run` calls it.
- Embedded.Extract: the "invalid embedded file path" and "invalid embedded dir path" errors cannot happen in the model, because every bundled entry has a name.
- App.FindTemplatesRoot: `canonicalize` is a parameter, and `..` is resolved by dropping the last segment of an absolute manifest path once the manifest directory itself is found to be a directory. The lookup of the manifest directory's own ancestors is assumed to succeed, as it does on a well-formed disk. A relative manifest path and symbolic links are not modelled.
- App.Run: the working directory is read twice in `run` (for the search and for the default output directory). The model reads one value for both.
- App.ValidPrompt: dialoguer's terminal handling is not modelled. The prompt is a function assumed to answer with an index inside the list shown, as `interact` does.

# dockerfiledeps, modelled in Dafny

`dockerfiledeps` reads a tree of container build recipes (files named
`Dockerfile`) and prints Make rules. The rules rebuild an image only when
the files it stages or its base image change. This project models the
generator's core, `main.go`, as pure Dafny functions and proves what that
code promises. The modules follow the program's steps:

- `Faults`: the run's single error channel. Every `log.Fatal` and every
  runtime panic becomes a `Fatal` result that names the cause.
- `Refs`: a parsed image reference and its `String()` form, with the read-back
  that shows the string form loses nothing.
- `Extract`: `extractDeps`, the single pass over a recipe's top-level
  directives, together with the two regular expressions `chownRE` and `urlRE`.
- `Classify`: `isLocal`, `localFrom` (both as written and as intended),
  `remoteFrom`, and the marker file name of a pulled image.
- `Tree`: the scan root as a tree of entries, `filepath.Walk` as a
  depth-first visit, and the lexical cleaning that `filepath.Join` performs.
- `FileDependencies`: `filedeps`, which lists every non-directory at or below
  each staged path.
- `Scan`: the walk for recipes, the recipe name (`filepath.Dir` of the
  relative path), and `addDockerfile` storing records last-writer-wins.
- `Emit`: the emission loop. It covers the rules printed for each record,
  the prerequisites those rules list for each target, and the exact printed
  text.
- `Strs`: string helpers (`strings.Index`, `strings.Replace` for a
  one-character pattern, `strings.Join`, last index of a character).

The generator has foreign collaborators: the recipe parser, the reference
parser and the order in which Go ranges over a map. Each is a parameter of
the model:

- `RecipeParser` stands for the recipe parser.
- `RefParser` stands for the reference parser.
- `iterate`, in `Emit.Generate`, stands for the map's range order. It is
  required to list every recipe name exactly once.

The scan root's own base name is the parameter `rootName`, since the walk
reports the root under that name and tests it like any other entry.

A few behaviours of the code are worth stating plainly:

- A base image is either `local` by tag or pulled under its full string
  form (`Emit.BaseImageOf`).
- A pull rule is printed for every recipe that uses the image; the rules
  are not deduplicated (`Emit.AllRulesPullRecipes`).
- A staging directive whose ownership flag has no path after it dereferences
  a nil node. It is modelled as the `MissingArgument` fault.
- A staged path that names nothing makes the walk's callback dereference
  absent file information. It is modelled as the `MissingPath` fault.

## Model

| member | source | states |
|---|---|---|
| `Refs.ToStringRoundTrip` | main.go:92-94 | for a well-formed reference, reading back the string form `remoteFrom` prints gives back the same name, tag and digest |
| `Refs.ToStringInjective` | main.go:92-94 | two well-formed references with the same string form are the same reference |
| `Extract.IsUrlIffPattern` | main.go:142 | the left-to-right matcher accepts a path exactly when it starts with one or more non-space characters followed by `://` |
| `Extract.UrlScanMatches` | main.go:142 | from any position reached over non-space characters, the matcher accepts exactly when `://` starts at that position or later, after a non-empty run of non-space characters |
| `Extract.StagedPath` | main.go:157-160 | the staged source is the first argument, or the second when the first starts with `--chown`; it fails exactly when that argument is missing |
| `Extract.ExtractFromOk` | main.go:148-165 | the pass succeeds exactly when no directive faults |
| `Extract.ExtractFromPaths` | main.go:156-163 | a successful pass appends exactly the staged non-URL paths, in directive order, keeping repeats |
| `Extract.ExtractFromBase` | main.go:150-155 | a successful pass ends with the parse of the last `from` argument, or with the base image it started from when there is no `from` |
| `Extract.ExtractDepsSpec` | main.go:144-167 | `extractDeps` succeeds exactly when no directive faults; its record is the last `from`'s reference and all staged non-URL paths |
| `Extract.ExtractFromFirstFault` | main.go:148-165 | a failing pass reports the fault of the first directive that faults |
| `Extract.ExtractFromAppend` | main.go:148-165 | the pass over two concatenated directive lists is the pass over the first, continued over the second |
| `Extract.IgnoredDirective` | main.go:149-164 | a directive other than `from`, `add` and `copy` can be removed from a recipe without changing its record |
| `Classify.LocalFromAsWritten` | main.go:81-90 | as written, `localFrom` always fails: with a registry mismatch when the name does not start with the URL, and with "doesn't parse" when it does |
| `Classify.LocalFromAsWrittenRejectsMatchingRegistry` | main.go:83-88 | a `local` image on the configured registry is rejected as not parsing |
| `Classify.LocalFrom` | main.go:81-90 | the intended `localFrom`: it succeeds exactly when the image name starts with the URL, and the result after the URL is the rest of the name; otherwise it gives the registry-mismatch fault |
| `Classify.LocalFromStripsRegistry` | main.go:85 | the intended `localFrom` turns `registry.example.com/base:local` into the build target name `base` |
| `Classify.IsLocalCases` | main.go:74-79 | a record is local exactly when its base image carries the tag `local`, whatever its digest; an untagged or digest-only image, or no base image, is not local; for a well-formed image this is the tag its string form reads back to |
| `Classify.RemoteFrom` | main.go:92-94 | `remoteFrom` succeeds exactly when the record has a base image, and for a well-formed image the string it gives reads back to that image |
| `Classify.MarkerName` | main.go:55-58 | the marker name is the per-character escape followed by `.image`; no `/` or `:` occurs before the suffix |
| `Classify.Escape` | main.go:55-57 | the escaped name contains no `/` and no `:` |
| `Classify.ChainIsEscape` | main.go:55-57 | the three chained replacements (`_`, then `/`, then `:`) equal one per-character substitution, because no replacement text adds a character that a later replacement rewrites |
| `Classify.UnescapeEscape` | main.go:55-57 | the escaped name can be read back to the original |
| `Classify.MarkerNameInjective` | main.go:55-58 | distinct remote image strings never share a marker file |
| `Classify.MarkerOfReferenceInjective` | main.go:53-58 | distinct well-formed base images never share a marker file |
| `Tree.NonDirs` | main.go:101 | a path is kept exactly when the walk visited it as a non-directory |
| `Tree.VisitSpec` | main.go:31-42 | the walk visits exactly the entries of the tree, each at its full path and with its own directory flag |
| `Tree.FilesSpec` | main.go:100-107 | the files a walk lists are exactly the non-directory entries below the walked node |
| `Tree.LookupEntryAt` | main.go:100 | an entry found below a looked-up path is an entry of the whole tree, at the joined path |
| `Tree.PiecesJoin` | main.go:100 | splitting a path text at separators and joining it back gives the same text |
| `Tree.ResolveClean` | main.go:100 | lexical cleaning leaves a path unchanged when its components are already clean |
| `Tree.StagedRoot` | main.go:100 | the joined staged path is always clean; when the recipe name's and the staged path's components are all clean, it is exactly those components, the name's first |
| `Tree.ResolveDotDot` | main.go:100 | a component followed by `..` cancels out of the joined path |
| `Tree.ResolveSkip` | main.go:100 | an empty component or `.` anywhere in the piece list can be removed without changing the joined path |
| `Tree.StagedRootDotSlash` | main.go:100 | a leading `./` on a staged path names the same joined path as the path without it |
| `FileDependencies.StagedFiles` | main.go:100-109 | one staged path's walk succeeds exactly when the joined path stays below the root and names an entry |
| `FileDependencies.StagedFilesSpec` | main.go:100-107 | every path a staged path's walk lists starts with the joined staged path and names a non-directory entry below it (and so of the tree); every non-directory at or below the staged path is listed |
| `FileDependencies.FileDepsOk` | main.go:99-110 | the listing succeeds exactly when every staged path's walk succeeds |
| `FileDependencies.FileDepsFault` | main.go:99-110 | a failing listing reports the fault of the first staged path that fails |
| `FileDependencies.FileDepsSnoc` | main.go:99-110 | one more staged path appends its own listing, or gives its fault, after the listing so far |
| `FileDependencies.FileDepsPrefixFault` | main.go:99-110 | once a prefix of the staged paths fails, the whole listing fails with the same fault |
| `FileDependencies.FileDepsOf` | main.go:96-113 | the loop, which appends each walk's files to a growing list, computes the listing |
| `FileDependencies.FileDepsMember` | main.go:96-113 | a text is listed exactly when some staged path's own walk lists it |
| `FileDependencies.FileDepsAreFiles` | main.go:100-106 | every listed dependency is the relative path of a non-directory entry of the tree, namely the joined path of some staged path followed by the path of a non-directory entry below it |
| `FileDependencies.ListedBelow` | main.go:100-106 | a text listed by one staged path's walk is that staged path's joined path followed by the path of a non-directory entry below it |
| `FileDependencies.FileDepsComplete` | main.go:100-106 | every non-directory at or below a staged path is listed |
| `Scan.RecipeName` | main.go:37 | a path without `/` is named `.`; otherwise the name is the text before the last `/` |
| `Scan.RecipeNameOfPath` | main.go:33-37 | a recipe is named after the path of its directory, and a recipe at the root is named `.` |
| `Scan.RecipePathsMember` | main.go:31-32 | the scan picks exactly the visited paths whose reported name is `Dockerfile`, files and directories alike, the scan root reported under its own base name |
| `Scan.RecipePathsSpec` | main.go:31-42 | the scan finds exactly the entries below the root named `Dockerfile`, and the scan root itself exactly when its own base name is `Dockerfile`; that root recipe is named `.` |
| `Scan.AddAllOk` | main.go:115-122 | adding recipes succeeds exactly when every recipe parses and yields a record |
| `Scan.AddAllSpec` | main.go:115-122 | after adding, the store has an entry for every recipe name found; a name shared by several recipes holds the record of the last one added |
| `Emit.BaseImageOf` | main.go:50-58 | with the intended `localFrom`: a `local`-tagged image whose name starts with the URL builds on the recipe named by the rest of the name; a `local`-tagged image on another registry fails with the registry-mismatch fault naming the image and the URL; an image not tagged `local` is pulled under its string form and marker name; a record without a base image fails with the missing-base fault |
| `Emit.BaseImageOfAsWritten` | main.go:50-53 | with `localFrom` as written, every `local` base image fails; any other base image classifies as with the intended `localFrom` |
| `Emit.RulesForPrereqs` | main.go:50-70 | the prerequisites one recipe's emitted rules list for each target: the build target gets the base target then the file dependencies; the aggregates get the recipe's entries; a pulled marker gets `.pull-once`; any other target gets nothing |
| `Emit.RulesForOrderOnly` | main.go:61-69 | the build target is order-only on `.build`, a pulled marker is order-only on `.remote`, and no other target has order-only prerequisites |
| `Emit.PullRuleOnlyForRemote` | main.go:60-64 | only a pulled image's marker gets a rule with commands, and it gets exactly one per recipe |
| `Emit.AllRulesOk` | main.go:49-71 | emission succeeds exactly when every recipe's rules exist |
| `Emit.AllRulesAggregates` | main.go:67-68 | the emitted rules list every recipe's `build-` and `push-` entry as prerequisites of `build-all` and `push-all`, in emission order |
| `Emit.AllRulesNotListed` | main.go:49-71 | a name that is not emitted has no prerequisites and no order-only prerequisites for its build target |
| `Emit.AllRulesBuildTarget` | main.go:49-71 | when each recipe is emitted once, the rules list for a recipe's build target exactly its base target and its file dependencies, order-only on `.build`; no other recipe adds to it |
| `Emit.AllRulesPullRecipes` | main.go:60-64 | a marker target gets one pull recipe per recipe that builds on that image; pull rules are not deduplicated |
| `Emit.RenderPull` | main.go:61-64 | the pull rule is printed as the format string spells it |
| `Emit.RenderBase` | main.go:50-64 | the base-image rules are printed as the format strings spell them, for local and pulled images |
| `Emit.RulesForText` | main.go:50-70 | the rendered rules of a recipe are exactly the text the loop prints for it |
| `Emit.AllRulesText` | main.go:49-71 | the rendered rules of all recipes are the text the loop prints for each recipe, one recipe after the other in emission order |
| `Emit.AllRulesOkOverStore` | main.go:49-71 | over any enumeration of the store, emission succeeds exactly when every stored record's rules exist |
| `Emit.GenerateSpec` | main.go:31-71 | with the intended `localFrom`: the scan succeeds exactly when every recipe found yields a record; the run succeeds exactly when that holds and every stored record emits; its output is the comment line followed by the text the loop prints for each recipe name, in the map's range order |
| `Emit.AllRulesAsWrittenSpec` | main.go:49-53 | as written, emission over a sequence of recipes fails whenever one of them builds on a `local` image, and equals the intended emission when none does |
| `Emit.GenerateAsWrittenSpec` | main.go:31-53 | as written, a run succeeds only when the scan succeeds and no stored record is local; when no stored record is local, it is the run with the intended `localFrom` |

## Left out

- Command-line handling (main.go:24-29): the registry URL and the scan root
  are parameters, and the usage fatal is not modelled.
- Recipe parsing (main.go:116-119, 124-139) and `reference.Parse`
  (main.go:152) are foreign. They are the function parameters
  `RecipeParser` and `RefParser`. A failure of either is a `Fatal` result.
- The reference grammar appears only as `Refs.WellFormed`, the part of it
  the round trip needs. Name normalisation is not modelled.
- File-system I/O: the tree is an immutable value. Symbolic links,
  permission errors and walk errors passed to the callback are not modelled.
- Directory entries are visited in the order the `Dir` value lists them.
  The model does not require that order to be sorted by name, as
  `filepath.Walk` would.
- The scan root is taken to be a directory. For a root that is a file,
  `filepath.Rel` would give `.` where the model's path text is empty.
- A staged path whose `..` climbs above the scan root at any point (for
  example `../../x`) ends in the model's `OutsideRoot` fault. The program
  cleans the path against the scan root's own components and walks the
  cleaned path wherever it lies, possibly back inside the root.
- The `filepath.Rel` errors at main.go:34 and main.go:104 cannot happen,
  so they are not modelled. In both calls the target is a cleaned join of
  the base itself. `filepath.Rel` fails only when the cleaned base keeps a
  leading `..` that the target does not share, and cleaning never removes
  a leading `..` of the base from such a join.
- Output is a single string produced after all checks. The program prints
  rule by rule, so a fatal in the middle of the loop leaves a partial output
  behind. The model gives no output for a failed run.
- Go's map range order is the `iterate` parameter. Any order that lists each
  recipe name once is allowed.
- The walk in `main` also calls `addDockerfile` for a directory named
  `Dockerfile`, the scan root included. Reading it is up to the recipe
  parser parameter, which can refuse it.
- `Emit.BaseImageOf` uses the corrected `Classify.LocalFrom`, and so do
  `Emit.RecordRules`, `Emit.AllRules`, `Emit.Generate` and the lemmas about
  them. The code as written ends every run that has a `local` base image;
  that behaviour is `Emit.GenerateAsWritten`, related to the corrected run by
  `Emit.GenerateAsWrittenSpec`.
- `Emit.RulesForPrereqs`, `Emit.RulesForOrderOnly`, `Emit.AllRulesAggregates`,
  `Emit.AllRulesNotListed` and `Emit.AllRulesBuildTarget` state the
  prerequisites the emitted rules list, not Make's parse of the printed
  text. The program prints recipe names and staged paths unquoted, joined by
  single spaces, so Make reads the text the same way only when those names
  and paths hold no whitespace and none of `#`, `$`, `:`, `;`, `|` or `%`.
- Directory entries are not required to have distinct, valid names. A tree
  with two entries of the same name cannot exist on a file system; on such
  a tree `Tree.Lookup` takes the first of them while `Tree.Visit` lists both.

## Findings

| source | as written | input that shows it | evidently intended | confidence | as-written member | corrected member |
|---|---|---|---|---|---|---|
| main.go:81-90 | the statement that strips the registry URL is inside the mismatch branch, after `log.Fatalf`, so it never runs; a name that does start with the URL skips that branch and reaches the "doesn't parse as a named Docker reference" fatal, so every `local` base image ends the run | `FROM registry.example.com/base:local` with registry URL `registry.example.com/` | a fatal on a mismatch, and otherwise the name with the URL stripped (`base`) as the local build target | high; not executed | `Classify.LocalFromAsWritten`, shown by `Classify.LocalFromAsWrittenRejectsMatchingRegistry`; the whole run as written is `Emit.GenerateAsWritten`, which fails whenever a stored record is local (`Emit.GenerateAsWrittenSpec`) | `Classify.LocalFrom`, shown by `Classify.LocalFromStripsRegistry`; `Emit.BaseImageOf` uses it |

/** The recipe scan (`main`'s traversal and `addDockerfile`): every entry
    named `Dockerfile` below the scan root is parsed, its record extracted,
    and stored under the recipe name derived from its directory. */
module Scan {
  import opened Strs
  import opened Faults
  import opened Extract
  import opened Tree

  /** The recipe parser is foreign: reading and parsing the recipe at a path
      either yields its top-level directives or fails. */
  type RecipeParser = Path -> Option<seq<Directive>>

  /** The record store: recipe name to record. */
  type Store = map<string, DepRecord>

  const RecipeFile := "Dockerfile"

  /** `filepath.Dir` of a clean relative path: everything before the last
      separator, or `.` when there is none. */
  function RecipeName(rel: string): (name: string)
    ensures '/' !in rel ==> name == "."
    ensures '/' in rel ==> |name| < |rel| && rel == name + "/" + rel[|name| + 1..] && '/' !in rel[|name| + 1..]
  {
    var i := LastIndex(rel, '/');
    if i < 0 then "."
    else
      assert rel == rel[..i] + "/" + rel[i + 1..];
      rel[..i]
  }

  /** The recipe at clean path `p` is named after its directory; a recipe at
      the root is named `.`. */
  lemma RecipeNameOfPath(p: Path)
    requires CleanPath(p) && |p| >= 1
    ensures RecipeName(PathText(p)) == if |p| == 1 then "." else PathText(p[..|p| - 1])
  {
    var last := p[|p| - 1];
    assert ValidName(p[|p| - 1]);
    if |p| > 1 {
      var init := p[..|p| - 1];
      assert p == init + [last];
      JoinSnoc(init, last, "/");
      RecipeNameAt(PathText(init), last);
    }
  }

  /** The directory part of `dir/last`, for a last component without a
      separator, is `dir`. */
  lemma RecipeNameAt(dir: string, last: string)
    requires '/' !in last
    ensures RecipeName(dir + "/" + last) == dir
  {
    LastIndexAtSeam(dir, last, '/');
    assert (dir + "/" + last)[..|dir|] == dir;
  }

  /** The name the traversal reports for the entry at `p` (`info.Name()`):
      its last component, or, for the scan root itself, the root's own base
      name `rootName`. */
  function BaseName(rootName: string, p: Path): string {
    if p == [] then rootName else p[|p| - 1]
  }

  /** The paths the traversal visits whose reported name is the recipe file
      name, in visiting order. Directories of that name are included, the
      scan root among them: the source does not tell them apart. */
  function RecipePaths(vs: seq<Visited>, rootName: string): seq<Path> {
    if vs == [] then []
    else
      var v := vs[0];
      (if IsRecipe(rootName, v.path) then [v.path] else []) + RecipePaths(vs[1..], rootName)
  }

  /** The entry at `p` is reported under the recipe file name. */
  predicate IsRecipe(rootName: string, p: Path) {
    BaseName(rootName, p) == RecipeFile
  }

  lemma {:induction false} RecipePathsMember(vs: seq<Visited>, rootName: string, p: Path)
    ensures p in RecipePaths(vs, rootName) <==> IsRecipe(rootName, p) && (Visited(p, true) in vs || Visited(p, false) in vs)
  {
    if vs != [] {
      var v := vs[0];
      RecipePathsMember(vs[1..], rootName, p);
      assert vs == [v] + vs[1..];
      assert RecipePaths(vs, rootName) == (if IsRecipe(rootName, v.path) then [v.path] else []) + RecipePaths(vs[1..], rootName);
      assert Visited(p, v.isDir) == v <==> p == v.path;
    }
  }

  /** `addDockerfile`: parse the recipe at `p`, extract its record and store
      it under its recipe name, replacing any record already there. */
  function AddRecipe(store: Store, p: Path, parseRecipe: RecipeParser, parseRef: RefParser): Result<Store> {
    match parseRecipe(p) {
      case None => Fatal(RecipeUnparsable(p))
      case Some(ast) =>
        var rec :- ExtractDeps(ast, parseRef);
        Ok(store[RecipeName(PathText(p)) := rec])
    }
  }

  /** The record the recipe at `p` yields, if it yields one. */
  function RecordAt(p: Path, parseRecipe: RecipeParser, parseRef: RefParser): Result<DepRecord> {
    match parseRecipe(p) {
      case None => Fatal(RecipeUnparsable(p))
      case Some(ast) => ExtractDeps(ast, parseRef)
    }
  }

  /** Adds the recipes at `paths`, in order. */
  function AddAll(store: Store, paths: seq<Path>, parseRecipe: RecipeParser, parseRef: RefParser): Result<Store>
    decreases |paths|
  {
    if paths == [] then Ok(store)
    else
      var next :- AddRecipe(store, paths[0], parseRecipe, parseRef);
      AddAll(next, paths[1..], parseRecipe, parseRef)
  }

  /** The scan phase: every recipe at or below the root, in traversal order;
      `rootName` is the base name of the scan root. */
  function ScanTree(tree: FsNode, rootName: string, parseRecipe: RecipeParser, parseRef: RefParser): Result<Store> {
    AddAll(map[], RecipePaths(Visit(tree, []), rootName), parseRecipe, parseRef)
  }

  // ---------------------------------------------------------------------
  // What the store holds

  /** The last of `paths` whose recipe name is `name`. */
  function LastNamed(paths: seq<Path>, name: string): (r: Option<Path>)
    ensures r.Some? ==> r.value in paths && RecipeName(PathText(r.value)) == name
  {
    if paths == [] then None
    else
      var p := paths[|paths| - 1];
      if RecipeName(PathText(p)) == name then Some(p)
      else LastNamed(paths[..|paths| - 1], name)
  }

  predicate AllRecordsOk(paths: seq<Path>, parseRecipe: RecipeParser, parseRef: RefParser) {
    forall i :: 0 <= i < |paths| ==> RecordAt(paths[i], parseRecipe, parseRef).Ok?
  }

  lemma {:induction false} LastNamedCons(p: Path, paths: seq<Path>, name: string)
    ensures LastNamed([p] + paths, name) ==
      (if LastNamed(paths, name).Some? then LastNamed(paths, name)
       else if RecipeName(PathText(p)) == name then Some(p) else None)
    decreases |paths|
  {
    if paths == [] {
      assert [p] + paths == [p];
      assert [p][..0] == [];
    } else {
      assert ([p] + paths)[|paths|] == paths[|paths| - 1];
      assert ([p] + paths)[..|paths|] == [p] + paths[..|paths| - 1];
      LastNamedCons(p, paths[..|paths| - 1], name);
    }
  }

  /** Adding recipes succeeds exactly when every recipe parses and yields a
      record. */
  lemma {:induction false} AddAllOk(store: Store, paths: seq<Path>, parseRecipe: RecipeParser, parseRef: RefParser)
    ensures AddAll(store, paths, parseRecipe, parseRef).Ok? <==> AllRecordsOk(paths, parseRecipe, parseRef)
    decreases |paths|
  {
    if paths != [] {
      assert forall i :: 1 <= i < |paths| ==> paths[i] == paths[1..][i - 1];
      match AddRecipe(store, paths[0], parseRecipe, parseRef) {
        case Fatal(_) =>
        case Ok(next) =>
          AddAllOk(next, paths[1..], parseRecipe, parseRef);
      }
    }
  }

  /** Adding recipes succeeds exactly when every recipe parses and yields a
      record; the store then holds one entry per recipe name, and a name
      shared by several recipes keeps the record of the last one (last
      writer wins). */
  lemma {:induction false} AddAllSpec(store: Store, paths: seq<Path>, parseRecipe: RecipeParser, parseRef: RefParser)
    ensures AddAll(store, paths, parseRecipe, parseRef).Ok? <==> AllRecordsOk(paths, parseRecipe, parseRef)
    ensures AddAll(store, paths, parseRecipe, parseRef).Ok? ==>
      var out := AddAll(store, paths, parseRecipe, parseRef).value;
      forall name ::
        (name in out <==> name in store || LastNamed(paths, name).Some?)
        && (name in out ==>
              match LastNamed(paths, name) {
                case None => out[name] == store[name]
                case Some(p) => RecordAt(p, parseRecipe, parseRef) == Ok(out[name])
              })
    decreases |paths|
  {
    if paths != [] {
      var p := paths[0];
      assert paths == [p] + paths[1..];
      forall name {
        LastNamedCons(p, paths[1..], name);
      }
      assert AllRecordsOk(paths, parseRecipe, parseRef) <==>
        RecordAt(p, parseRecipe, parseRef).Ok? && AllRecordsOk(paths[1..], parseRecipe, parseRef) by {
        if RecordAt(p, parseRecipe, parseRef).Ok? && AllRecordsOk(paths[1..], parseRecipe, parseRef) {
          forall i | 1 <= i < |paths|
            ensures RecordAt(paths[i], parseRecipe, parseRef).Ok?
          {
            assert paths[i] == paths[1..][i - 1];
          }
        }
      }
      match AddRecipe(store, p, parseRecipe, parseRef) {
        case Fatal(_) =>
        case Ok(next) =>
          AddAllSpec(next, paths[1..], parseRecipe, parseRef);
      }
    }
  }

  /** The scan visits exactly the entries of the tree named `Dockerfile`,
      files and directories alike, and the scan root itself when its own
      name is `Dockerfile`; that root recipe is named `.`. */
  lemma RecipePathsSpec(tree: FsNode, rootName: string, p: Path)
    ensures p != [] ==>
      (p in RecipePaths(Visit(tree, []), rootName) <==>
        p[|p| - 1] == RecipeFile && (EntryAt(tree, p, true) || EntryAt(tree, p, false)))
    ensures [] in RecipePaths(Visit(tree, []), rootName) <==> rootName == RecipeFile
    ensures RecipeName(PathText([])) == "."
  {
    RecipePathsMember(Visit(tree, []), rootName, p);
    RecipePathsMember(Visit(tree, []), rootName, []);
    VisitSpec(tree, [], p, true);
    VisitSpec(tree, [], p, false);
    VisitSpec(tree, [], [], tree.Dir?);
    assert p[..0] == [] && p[0..] == p;
  }
}

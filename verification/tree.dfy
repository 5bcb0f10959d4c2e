/** The file system below the scan root, and the traversal the generator
    performs on it (`filepath.Walk`). A path is the list of its components
    below the scan root. */
module Tree {
  import opened Strs
  import opened Faults

  /** A file-system entry: a non-directory, or a directory listing its
      entries in the order the traversal visits them. */
  datatype FsNode = File | Dir(entries: seq<Entry>)

  datatype Entry = Entry(name: string, node: FsNode)

  type Path = seq<string>

  /** One step of the traversal: a visited path and whether it is a directory. */
  datatype Visited = Visited(path: Path, isDir: bool)

  // ---------------------------------------------------------------------
  // The traversal

  /** `filepath.Walk` from `node`, found at path `at`: the node itself, then
      every entry below it, depth first, in listing order. */
  function Visit(node: FsNode, at: Path): seq<Visited>
    decreases node, 1
  {
    [Visited(at, node.Dir?)] + (match node case File => [] case Dir(es) => VisitEntries(es, at))
  }

  function VisitEntries(es: seq<Entry>, at: Path): seq<Visited>
    decreases es, 0
  {
    if es == [] then []
    else Visit(es[0].node, at + [es[0].name]) + VisitEntries(es[1..], at)
  }

  /** The non-directory paths of a traversal, in order. */
  function NonDirs(vs: seq<Visited>): (ps: seq<Path>)
    ensures forall p :: p in ps <==> Visited(p, false) in vs
  {
    if vs == [] then []
    else (if vs[0].isDir then [] else [vs[0].path]) + NonDirs(vs[1..])
  }

  /** The files under `node`, as the traversal finds them. */
  function Files(node: FsNode, at: Path): seq<Path> {
    NonDirs(Visit(node, at))
  }

  // ---------------------------------------------------------------------
  // What the tree contains, independently of the traversal

  /** `node` has an entry at relative path `p`, a directory exactly when
      `isDir`. */
  ghost predicate EntryAt(node: FsNode, p: Path, isDir: bool)
    decreases node
  {
    if p == [] then isDir == node.Dir?
    else
      node.Dir? &&
      exists i :: 0 <= i < |node.entries| && node.entries[i].name == p[0]
        && EntryAt(node.entries[i].node, p[1..], isDir)
  }

  /** The traversal visits exactly the entries of the tree, each at its path. */
  lemma {:induction false} VisitSpec(node: FsNode, at: Path, p: Path, isDir: bool)
    ensures Visited(p, isDir) in Visit(node, at) <==>
      |at| <= |p| && p[..|at|] == at && EntryAt(node, p[|at|..], isDir)
    decreases node, 1
  {
    assert p == at ==> p[|at|..] == [];
    if node.Dir? {
      VisitEntriesSpec(node.entries, at, p, isDir);
      if |at| < |p| && p[..|at|] == at {
        var q := p[|at|..];
        assert q[1..] == p[|at| + 1..];
        assert (at + [q[0]]) == p[..|at| + 1];
      }
    }
  }

  lemma {:induction false} VisitEntriesSpec(es: seq<Entry>, at: Path, p: Path, isDir: bool)
    ensures Visited(p, isDir) in VisitEntries(es, at) <==> InEntries(es, at, p, isDir)
    decreases es, 0
  {
    if es != [] {
      var at' := at + [es[0].name];
      VisitSpec(es[0].node, at', p, isDir);
      VisitEntriesSpec(es[1..], at, p, isDir);
      ExtendedPrefix(at, es[0].name, p);
      InEntriesCons(es, at, p, isDir);
      assert VisitEntries(es, at) == Visit(es[0].node, at') + VisitEntries(es[1..], at);
    }
  }

  /** `p` lies below `at` and names, under `at`, an entry of `es`. */
  ghost predicate InEntries(es: seq<Entry>, at: Path, p: Path, isDir: bool)
  {
    |at| < |p| && p[..|at|] == at &&
    exists i :: 0 <= i < |es| && es[i].name == p[|at|] && EntryAt(es[i].node, p[|at| + 1..], isDir)
  }

  lemma InEntriesCons(es: seq<Entry>, at: Path, p: Path, isDir: bool)
    requires es != []
    ensures InEntries(es, at, p, isDir) <==>
      (|at| < |p| && p[..|at|] == at && es[0].name == p[|at|] && EntryAt(es[0].node, p[|at| + 1..], isDir))
      || InEntries(es[1..], at, p, isDir)
  {
    if InEntries(es, at, p, isDir) {
      var i :| 0 <= i < |es| && es[i].name == p[|at|] && EntryAt(es[i].node, p[|at| + 1..], isDir);
      if i > 0 {
        assert es[i] == es[1..][i - 1];
      }
    }
    if InEntries(es[1..], at, p, isDir) {
      var i :| 0 <= i < |es[1..]| && es[1..][i].name == p[|at|] && EntryAt(es[1..][i].node, p[|at| + 1..], isDir);
      assert es[1..][i] == es[i + 1];
    }
  }

  /** `p` extends `at + [c]` exactly when it extends `at` with `c` next. */
  lemma ExtendedPrefix(at: Path, c: string, p: Path)
    ensures (|at + [c]| <= |p| && p[..|at + [c]|] == at + [c]) <==>
      (|at| < |p| && p[..|at|] == at && p[|at|] == c)
    ensures |at + [c]| <= |p| ==> p[|at + [c]|..] == p[|at| + 1..]
  {
    if |at| < |p| && p[..|at|] == at && p[|at|] == c {
      assert p[..|at| + 1] == p[..|at|] + [p[|at|]];
    }
    if |at + [c]| <= |p| && p[..|at + [c]|] == at + [c] {
      assert p[..|at|] == p[..|at + [c]|][..|at|];
      assert p[|at|] == p[..|at + [c]|][|at|];
    }
  }

  /** The files the traversal lists are exactly the non-directory entries
      below `node`, each listed at its full path. */
  lemma FilesSpec(node: FsNode, at: Path, p: Path)
    ensures p in Files(node, at) <==>
      |at| <= |p| && p[..|at|] == at && EntryAt(node, p[|at|..], false)
  {
    VisitSpec(node, at, p, false);
  }

  // ---------------------------------------------------------------------
  // Looking a path up

  /** The entry at relative path `p`: in each directory the first entry of
      that name. A path through a non-directory names nothing. */
  function Lookup(node: FsNode, p: Path): (r: Option<FsNode>)
    decreases node
  {
    if p == [] then Some(node)
    else match node {
      case File => None
      case Dir(es) => LookupIn(es, p, 0)
    }
  }

  function LookupIn(es: seq<Entry>, p: Path, i: nat): Option<FsNode>
    requires p != [] && i <= |es|
    decreases es, |es| - i
  {
    if i == |es| then None
    else if es[i].name == p[0] then Lookup(es[i].node, p[1..])
    else LookupIn(es, p, i + 1)
  }

  /** An entry found below a looked-up node is an entry of the whole tree. */
  lemma {:induction false} LookupEntryAt(node: FsNode, p: Path, q: Path, isDir: bool)
    requires Lookup(node, p).Some?
    requires EntryAt(Lookup(node, p).value, q, isDir)
    ensures EntryAt(node, p + q, isDir)
    decreases node
  {
    if p == [] {
      assert p + q == q;
    } else {
      LookupInEntryAt(node.entries, p, q, isDir, 0);
    }
  }

  lemma {:induction false} LookupInEntryAt(es: seq<Entry>, p: Path, q: Path, isDir: bool, i: nat)
    requires p != [] && i <= |es|
    requires LookupIn(es, p, i).Some?
    requires EntryAt(LookupIn(es, p, i).value, q, isDir)
    ensures exists j :: 0 <= j < |es| && es[j].name == p[0] && EntryAt(es[j].node, (p + q)[1..], isDir)
    decreases es, |es| - i
  {
    if es[i].name == p[0] {
      LookupEntryAt(es[i].node, p[1..], q, isDir);
      assert (p + q)[1..] == p[1..] + q;
    } else {
      LookupInEntryAt(es, p, q, isDir, i + 1);
    }
  }

  // ---------------------------------------------------------------------
  // Paths as text

  /** A path component as a clean path has it: non-empty, neither `.` nor
      `..`, and without a separator. */
  predicate ValidName(c: string) {
    c != "" && c != "." && c != ".." && '/' !in c
  }

  /** Every component of `p` is valid: `p` is a clean path below the root. */
  predicate CleanPath(p: Path)
    ensures CleanPath(p) ==> forall i :: 0 <= i < |p| ==> '/' !in p[i]
  {
    forall i :: 0 <= i < |p| ==> ValidName(p[i])
  }

  /** The text of a path below the scan root, components joined by `/`; the
      form `filepath.Rel` gives it. */
  function PathText(p: Path): string {
    Join(p, "/")
  }

  /** The pieces of `s` between separators, empty ones included. */
  function Pieces(s: string): (ps: seq<string>)
    ensures |ps| >= 1
    ensures forall i :: 0 <= i < |ps| ==> '/' !in ps[i]
    decreases |s|
  {
    var i := Index(s, "/");
    if i < 0 then
      assert forall j :: 0 <= j < |s| ==> !OccursAt(s, "/", j) ==> s[j] != '/';
      [s]
    else
      assert s[i..i + 1] == "/";
      var before := s[..i];
      assert forall j :: 0 <= j < i ==> !OccursAt(s, "/", j) ==> before[j] != '/';
      [before] + Pieces(s[i + 1..])
  }

  /** Splitting at separators loses nothing: the pieces joined by `/` are
      the text again. */
  lemma {:induction false} PiecesJoin(s: string)
    ensures Join(Pieces(s), "/") == s
    decreases |s|
  {
    var i := Index(s, "/");
    if i >= 0 {
      var before, after := s[..i], s[i + 1..];
      var rest := Pieces(after);
      PiecesJoin(after);
      assert Pieces(s) == [before] + rest;
      JoinCons(before, rest, "/");
      assert Join(Pieces(s), "/") == before + "/" + after;
      SplitAt(s, i);
    }
  }

  lemma SplitAt(s: string, i: nat)
    requires i < |s| && s[i] == '/'
    ensures s == s[..i] + "/" + s[i + 1..]
  {
  }

  /** Lexical cleaning of a piece list against the components `stack`
      already resolved: empty pieces and `.` vanish, `..` drops the last
      resolved component. `..` with nothing left to drop leaves the scan
      root, which the model does not follow. */
  function Resolve(pieces: seq<string>, stack: Path): (r: Option<Path>)
    requires forall i :: 0 <= i < |pieces| ==> '/' !in pieces[i]
    requires CleanPath(stack)
    ensures r.Some? ==> CleanPath(r.value)
    decreases |pieces|
  {
    if pieces == [] then Some(stack)
    else if pieces[0] == "" || pieces[0] == "." then Resolve(pieces[1..], stack)
    else if pieces[0] == ".." then
      if stack == [] then None else Resolve(pieces[1..], stack[..|stack| - 1])
    else Resolve(pieces[1..], stack + [pieces[0]])
  }

  /** The path, below the scan root, of `filepath.Join(root, name, staged)`:
      the pieces of the recipe name, then those of the staged path, cleaned.
      When every piece is already a clean component nothing is dropped. */
  function StagedRoot(name: string, staged: string): (r: Option<Path>)
    ensures r.Some? ==> CleanPath(r.value)
    ensures CleanPath(Pieces(name) + Pieces(staged)) ==> r == Some(Pieces(name) + Pieces(staged))
  {
    var pieces := Pieces(name) + Pieces(staged);
    if CleanPath(pieces) then
      ResolveClean(pieces, []);
      assert [] + pieces == pieces;
      Resolve(pieces, [])
    else Resolve(pieces, [])
  }

  /** A component followed by `..` cancels out. */
  lemma ResolveDotDot(c: string, ps: seq<string>, stack: Path)
    requires ValidName(c) && CleanPath(stack)
    requires forall i :: 0 <= i < |ps| ==> '/' !in ps[i]
    ensures Resolve([c, ".."] + ps, stack) == Resolve(ps, stack)
  {
    var all := [c, ".."] + ps;
    assert all[0] == c && all[1..] == [".."] + ps;
    assert ([".."] + ps)[0] == ".." && ([".."] + ps)[1..] == ps;
    assert (stack + [c])[..|stack|] == stack;
  }

  /** Empty pieces and `.` vanish wherever they stand in the piece list. */
  lemma {:induction false} ResolveSkip(pre: seq<string>, c: string, ps: seq<string>, stack: Path)
    requires c == "" || c == "."
    requires CleanPath(stack)
    requires forall i :: 0 <= i < |pre| ==> '/' !in pre[i]
    requires forall i :: 0 <= i < |ps| ==> '/' !in ps[i]
    ensures forall i :: 0 <= i < |pre + [c] + ps| ==> '/' !in (pre + [c] + ps)[i]
    ensures forall i :: 0 <= i < |pre + ps| ==> '/' !in (pre + ps)[i]
    ensures Resolve(pre + [c] + ps, stack) == Resolve(pre + ps, stack)
    decreases |pre|
  {
    var all, short := pre + [c] + ps, pre + ps;
    assert forall i :: 0 <= i < |all| ==> all[i] == (if i < |pre| then pre[i] else if i == |pre| then c else ps[i - |pre| - 1]);
    assert forall i :: 0 <= i < |short| ==> short[i] == (if i < |pre| then pre[i] else ps[i - |pre|]);
    if pre == [] {
      assert all == [c] + ps && all[1..] == ps && short == ps;
    } else {
      assert all[0] == pre[0] && all[1..] == pre[1..] + [c] + ps;
      assert short[0] == pre[0] && short[1..] == pre[1..] + ps;
      if pre[0] == "" || pre[0] == "." {
        ResolveSkip(pre[1..], c, ps, stack);
      } else if pre[0] == ".." {
        if stack != [] {
          ResolveSkip(pre[1..], c, ps, stack[..|stack| - 1]);
        }
      } else {
        ResolveSkip(pre[1..], c, ps, stack + [pre[0]]);
      }
    }
  }

  /** A leading `./` on a staged path changes nothing: `filepath.Join`
      names the same path for `./x` as for `x`. */
  lemma StagedRootDotSlash(name: string, staged: string)
    ensures StagedRoot(name, "./" + staged) == StagedRoot(name, staged)
  {
    var t := "./" + staged;
    assert t[0] == '.' && t[1] == '/';
    assert t[0..1] == "." && t[1..2] == "/";
    assert OccursAt(t, "/", 1) && !OccursAt(t, "/", 0);
    assert t[..1] == "." && t[2..] == staged;
    assert Pieces(t) == ["."] + Pieces(staged);
    ResolveSkip(Pieces(name), ".", Pieces(staged), []);
    assert Pieces(name) + Pieces(t) == Pieces(name) + ["."] + Pieces(staged);
  }

  /** Clean components survive cleaning unchanged. */
  lemma {:induction false} ResolveClean(p: Path, stack: Path)
    requires CleanPath(p) && CleanPath(stack)
    ensures Resolve(p, stack) == Some(stack + p)
    decreases |p|
  {
    if p == [] {
      assert stack + p == stack;
    } else {
      ResolveClean(p[1..], stack + [p[0]]);
      assert stack + [p[0]] + p[1..] == stack + p;
    }
  }
}

/** The files a recipe depends on (`filedeps`): for each staged path, every
    non-directory at or below it, named relative to the scan root. */
module FileDependencies {
  import opened Strs
  import opened Faults
  import opened Tree

  /** The files one staged path of recipe `name` contributes, found by
      traversing `join(root, name, staged)`. A path that names nothing fails,
      as the traversal's callback would dereference absent file information. */
  function StagedFiles(tree: FsNode, name: string, staged: string): (r: Result<seq<Path>>)
    ensures r.Ok? <==> StagedRoot(name, staged).Some? && Lookup(tree, StagedRoot(name, staged).value).Some?
  {
    match StagedRoot(name, staged) {
      case None => Fatal(OutsideRoot(name, staged))
      case Some(root) =>
        match Lookup(tree, root) {
          case None => Fatal(MissingPath(root))
          case Some(node) => Ok(Files(node, root))
        }
    }
  }

  /** A staged path's listing holds only non-directory entries of the tree
      at or below the joined path, and every non-directory there. */
  lemma StagedFilesSpec(tree: FsNode, name: string, staged: string)
    requires StagedFiles(tree, name, staged).Ok?
    ensures forall p :: p in StagedFiles(tree, name, staged).value ==>
      var root := StagedRoot(name, staged).value;
      && |root| <= |p| && p[..|root|] == root
      && EntryAt(Lookup(tree, root).value, p[|root|..], false)
      && EntryAt(tree, p, false)
    ensures forall q ::
      (EntryAt(Lookup(tree, StagedRoot(name, staged).value).value, q, false)
       ==> StagedRoot(name, staged).value + q in StagedFiles(tree, name, staged).value)
  {
    var root := StagedRoot(name, staged).value;
    var node := Lookup(tree, root).value;
    var files := Files(node, root);
    forall p | p in files
      ensures |root| <= |p| && p[..|root|] == root && EntryAt(node, p[|root|..], false)
      ensures EntryAt(tree, p, false)
    {
      FilesSpec(node, root, p);
      LookupEntryAt(tree, root, p[|root|..], false);
      PrefixRest(root, p);
    }
    forall q | EntryAt(node, q, false)
      ensures root + q in files
    {
      FilesSpec(node, root, root + q);
      assert (root + q)[..|root|] == root;
      assert (root + q)[|root|..] == q;
    }
  }

  /** Path texts, in order. */
  function Texts(ps: seq<Path>): (ts: seq<string>)
    ensures |ts| == |ps|
    ensures forall i :: 0 <= i < |ps| ==> ts[i] == PathText(ps[i])
  {
    if ps == [] then [] else [PathText(ps[0])] + Texts(ps[1..])
  }

  /** The dependency listing of a record's staged paths: each path's
      listing, concatenated in staging order with repetitions kept; the fault
      of the first staged path that fails. */
  function FileDeps(tree: FsNode, name: string, staged: seq<string>): Result<seq<string>> {
    if staged == [] then Ok([])
    else
      var here :- StagedFiles(tree, name, staged[0]);
      var rest :- FileDeps(tree, name, staged[1..]);
      Ok(Texts(here) + rest)
  }

  /** Every staged path names something below the root. */
  predicate AllStagedOk(tree: FsNode, name: string, staged: seq<string>) {
    forall i :: 0 <= i < |staged| ==> StagedFiles(tree, name, staged[i]).Ok?
  }

  lemma AllStagedOkCons(tree: FsNode, name: string, staged: seq<string>)
    requires staged != []
    ensures AllStagedOk(tree, name, staged) <==>
      StagedFiles(tree, name, staged[0]).Ok? && AllStagedOk(tree, name, staged[1..])
  {
    if StagedFiles(tree, name, staged[0]).Ok? && AllStagedOk(tree, name, staged[1..]) {
      forall i | 0 <= i < |staged|
        ensures StagedFiles(tree, name, staged[i]).Ok?
      {
        if i > 0 {
          assert staged[i] == staged[1..][i - 1];
        }
      }
    }
    if AllStagedOk(tree, name, staged) {
      forall i | 0 <= i < |staged[1..]|
        ensures StagedFiles(tree, name, staged[1..][i]).Ok?
      {
        assert staged[1..][i] == staged[i + 1];
      }
    }
  }

  /** The listing fails exactly when some staged path fails. */
  lemma {:induction false} FileDepsOk(tree: FsNode, name: string, staged: seq<string>)
    ensures FileDeps(tree, name, staged).Ok? <==> AllStagedOk(tree, name, staged)
  {
    if staged != [] {
      FileDepsOk(tree, name, staged[1..]);
      AllStagedOkCons(tree, name, staged);
      assert FileDeps(tree, name, staged).Ok? <==>
        StagedFiles(tree, name, staged[0]).Ok? && FileDeps(tree, name, staged[1..]).Ok?;
    }
  }

  /** `i` is the first staged path that fails, and it fails with `f`. */
  predicate FirstFailure(tree: FsNode, name: string, staged: seq<string>, i: int, f: Fault) {
    && 0 <= i < |staged|
    && StagedFiles(tree, name, staged[i]) == Fatal(f)
    && forall j :: 0 <= j < i ==> StagedFiles(tree, name, staged[j]).Ok?
  }

  /** A failing listing reports the fault of the first staged path that
      fails. */
  lemma {:induction false} FileDepsFault(tree: FsNode, name: string, staged: seq<string>)
    requires FileDeps(tree, name, staged).Fatal?
    ensures exists i :: FirstFailure(tree, name, staged, i, FileDeps(tree, name, staged).fault)
  {
    var f := FileDeps(tree, name, staged).fault;
    var head := StagedFiles(tree, name, staged[0]);
    if head.Fatal? {
      assert f == head.fault;
      assert FirstFailure(tree, name, staged, 0, f);
    } else {
      var rest := staged[1..];
      assert FileDeps(tree, name, rest) == Fatal(f);
      FileDepsFault(tree, name, rest);
      var i :| FirstFailure(tree, name, rest, i, f);
      assert staged[i + 1] == rest[i];
      forall j | 0 <= j < i + 1
        ensures StagedFiles(tree, name, staged[j]).Ok?
      {
        if j > 0 {
          assert staged[j] == rest[j - 1];
        }
      }
      assert FirstFailure(tree, name, staged, i + 1, f);
    }
  }

  /** Extending the staged paths by one: the listing so far, then the new
      path's listing, or the first fault. */
  lemma {:induction false} FileDepsSnoc(tree: FsNode, name: string, staged: seq<string>, a: string)
    ensures FileDeps(tree, name, staged + [a]) == Then(FileDeps(tree, name, staged), StagedFiles(tree, name, a))
  {
    var tail := StagedFiles(tree, name, a);
    if staged == [] {
      assert staged + [a] == [a];
      assert [a][1..] == [];
      if tail.Ok? {
        assert Texts(tail.value) + [] == [] + Texts(tail.value);
      }
    } else {
      var s := staged + [a];
      assert s[0] == staged[0];
      assert s[1..] == staged[1..] + [a];
      FileDepsSnoc(tree, name, staged[1..], a);
      var head := StagedFiles(tree, name, staged[0]);
      var mid := FileDeps(tree, name, staged[1..]);
      var later := FileDeps(tree, name, s[1..]);
      assert later == Then(mid, tail);
      if head.Fatal? {
        assert FileDeps(tree, name, s) == Fatal(head.fault);
        assert FileDeps(tree, name, staged) == Fatal(head.fault);
      } else if later.Fatal? {
        assert FileDeps(tree, name, s) == Fatal(later.fault);
        if mid.Ok? {
          assert FileDeps(tree, name, staged) == Ok(Texts(head.value) + mid.value);
        }
      } else {
        var x, y, z := Texts(head.value), mid.value, Texts(tail.value);
        assert FileDeps(tree, name, s) == Ok(x + (y + z));
        assert FileDeps(tree, name, staged) == Ok(x + y);
        AppendAssoc(x, y, z);
      }
    }
  }

  /** A listing so far followed by one more staged path's listing. */
  function Then(sofar: Result<seq<string>>, next: Result<seq<Path>>): Result<seq<string>> {
    match sofar {
      case Fatal(f) => Fatal(f)
      case Ok(ds) =>
        match next {
          case Fatal(f) => Fatal(f)
          case Ok(ps) => Ok(ds + Texts(ps))
        }
    }
  }

  /** `filedeps` as the source writes it: one traversal per staged path,
      each appending what it finds to the growing list. */
  method FileDepsOf(tree: FsNode, name: string, staged: seq<string>) returns (r: Result<seq<string>>)
    ensures r == FileDeps(tree, name, staged)
  {
    var ds: seq<string> := [];
    var i := 0;
    while i < |staged|
      invariant 0 <= i <= |staged|
      invariant FileDeps(tree, name, staged[..i]) == Ok(ds)
    {
      var listing := StagedFiles(tree, name, staged[i]);
      FileDepsStep(tree, name, staged, i, ds);
      if listing.Fatal? {
        return Fatal(listing.fault);
      }
      ds := ds + Texts(listing.value);
      i := i + 1;
    }
    assert staged[..i] == staged;
    return Ok(ds);
  }

  /** One step of the loop: the listing of one more staged path extends the
      listing so far, and a failing path decides the whole listing. */
  lemma FileDepsStep(tree: FsNode, name: string, staged: seq<string>, i: nat, ds: seq<string>)
    requires i < |staged| && FileDeps(tree, name, staged[..i]) == Ok(ds)
    ensures StagedFiles(tree, name, staged[i]).Ok? ==>
      FileDeps(tree, name, staged[..i + 1]) == Ok(ds + Texts(StagedFiles(tree, name, staged[i]).value))
    ensures StagedFiles(tree, name, staged[i]).Fatal? ==>
      FileDeps(tree, name, staged) == Fatal(StagedFiles(tree, name, staged[i]).fault)
  {
    FileDepsSnoc(tree, name, staged[..i], staged[i]);
    assert staged[..i + 1] == staged[..i] + [staged[i]];
    if StagedFiles(tree, name, staged[i]).Fatal? {
      FileDepsPrefixFault(tree, name, staged, i + 1);
    }
  }

  /** Once a prefix of the staged paths fails, the whole list fails the same
      way. */
  lemma {:induction false} FileDepsPrefixFault(tree: FsNode, name: string, staged: seq<string>, k: nat)
    requires k <= |staged|
    requires FileDeps(tree, name, staged[..k]).Fatal?
    ensures FileDeps(tree, name, staged) == FileDeps(tree, name, staged[..k])
    decreases |staged| - k
  {
    if k < |staged| {
      FileDepsSnoc(tree, name, staged[..k], staged[k]);
      assert staged[..k + 1] == staged[..k] + [staged[k]];
      FileDepsPrefixFault(tree, name, staged, k + 1);
    } else {
      assert staged[..k] == staged;
    }
  }

  /** `d` is the text of a file the listing of staged path `a` finds. */
  predicate ListedBy(tree: FsNode, name: string, a: string, d: string) {
    StagedFiles(tree, name, a).Ok? && d in Texts(StagedFiles(tree, name, a).value)
  }

  /** Some staged path's own listing holds `d`. */
  predicate ListedAmong(tree: FsNode, name: string, staged: seq<string>, d: string) {
    exists i :: 0 <= i < |staged| && ListedBy(tree, name, staged[i], d)
  }

  lemma ListedAmongCons(tree: FsNode, name: string, staged: seq<string>, d: string)
    requires staged != []
    ensures ListedAmong(tree, name, staged, d) <==>
      ListedBy(tree, name, staged[0], d) || ListedAmong(tree, name, staged[1..], d)
  {
    if ListedAmong(tree, name, staged[1..], d) {
      var i :| 0 <= i < |staged[1..]| && ListedBy(tree, name, staged[1..][i], d);
      assert staged[1..][i] == staged[i + 1];
    }
    if ListedAmong(tree, name, staged, d) {
      var i :| 0 <= i < |staged| && ListedBy(tree, name, staged[i], d);
      if i > 0 {
        assert staged[i] == staged[1..][i - 1];
      }
    }
  }

  /** A text is in the listing exactly when some staged path's own listing
      holds it. */
  lemma {:induction false} FileDepsMember(tree: FsNode, name: string, staged: seq<string>, d: string)
    requires FileDeps(tree, name, staged).Ok?
    ensures d in FileDeps(tree, name, staged).value <==> ListedAmong(tree, name, staged, d)
  {
    if staged != [] {
      var here := StagedFiles(tree, name, staged[0]);
      var rest := FileDeps(tree, name, staged[1..]);
      assert here.Ok? && rest.Ok?;
      assert FileDeps(tree, name, staged).value == Texts(here.value) + rest.value;
      FileDepsMember(tree, name, staged[1..], d);
      ListedAmongCons(tree, name, staged, d);
    }
  }

  /** Every file dependency is the text of a non-directory entry of the
      tree, found at or below one of the staged paths. */
  lemma FileDepsAreFiles(tree: FsNode, name: string, staged: seq<string>, d: string)
    requires FileDeps(tree, name, staged).Ok?
    requires d in FileDeps(tree, name, staged).value
    ensures exists p :: EntryAt(tree, p, false) && d == PathText(p)
    ensures exists i, q :: FoundBelow(tree, name, staged, i, q) && d == PathText(StagedRoot(name, staged[i]).value + q)
  {
    FileDepsMember(tree, name, staged, d);
    var i :| 0 <= i < |staged| && ListedBy(tree, name, staged[i], d);
    var q := ListedBelow(tree, name, staged[i], d);
    assert FoundBelow(tree, name, staged, i, q);
  }

  /** A text one staged path lists names a non-directory below its joined
      path. */
  lemma ListedBelow(tree: FsNode, name: string, a: string, d: string) returns (q: Path)
    requires ListedBy(tree, name, a, d)
    ensures StagedRoot(name, a).Some? && Lookup(tree, StagedRoot(name, a).value).Some?
    ensures EntryAt(Lookup(tree, StagedRoot(name, a).value).value, q, false)
    ensures EntryAt(tree, StagedRoot(name, a).value + q, false)
    ensures d == PathText(StagedRoot(name, a).value + q)
  {
    var ps := StagedFiles(tree, name, a).value;
    var k :| 0 <= k < |Texts(ps)| && Texts(ps)[k] == d;
    StagedFilesSpec(tree, name, a);
    var p := ps[k];
    assert p in ps;
    var root := StagedRoot(name, a).value;
    q := p[|root|..];
    PrefixRest(root, p);
  }

  /** `q` is a non-directory entry below the joined path of staged path `i`. */
  ghost predicate FoundBelow(tree: FsNode, name: string, staged: seq<string>, i: int, q: Path) {
    && 0 <= i < |staged|
    && StagedRoot(name, staged[i]).Some?
    && Lookup(tree, StagedRoot(name, staged[i]).value).Some?
    && EntryAt(Lookup(tree, StagedRoot(name, staged[i]).value).value, q, false)
  }

  /** Every file at or below a staged path is a file dependency. */
  lemma FileDepsComplete(tree: FsNode, name: string, staged: seq<string>, i: nat, q: Path)
    requires FileDeps(tree, name, staged).Ok?
    requires i < |staged|
    requires StagedRoot(name, staged[i]).Some?
    requires Lookup(tree, StagedRoot(name, staged[i]).value).Some?
    requires EntryAt(Lookup(tree, StagedRoot(name, staged[i]).value).value, q, false)
    ensures PathText(StagedRoot(name, staged[i]).value + q) in FileDeps(tree, name, staged).value
  {
    FileDepsOk(tree, name, staged);
    var ps := StagedFiles(tree, name, staged[i]).value;
    var p := StagedRoot(name, staged[i]).value + q;
    StagedFilesSpec(tree, name, staged[i]);
    var k :| 0 <= k < |ps| && ps[k] == p;
    assert Texts(ps)[k] == PathText(p);
    FileDepsMember(tree, name, staged, PathText(p));
  }
}

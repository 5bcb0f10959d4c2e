/** Dependency extraction from one parsed recipe (`extractDeps`): a single
    left-to-right pass over the top-level directives that records the base
    image of the last `from` and the source path of every `add`/`copy` that
    stages local files. */
module Extract {
  import opened Strs
  import opened Faults
  import opened Refs

  /** One top-level directive of a parsed recipe: its lower-cased name and its
      argument chain, `args[0]` being `Next.Value` and `args[1]` being
      `Next.Next.Value`. */
  datatype Directive = Directive(value: string, args: seq<string>)

  /** What one recipe depends on: the base image (absent until a `from` is
      seen) and the staged source paths in directive order. */
  datatype DepRecord = DepRecord(from: Option<Reference>, addPaths: seq<string>)

  const EmptyRecord := DepRecord(None, [])

  /** The reference parser is foreign; the model takes it as a function that
      either yields a reference or rejects its argument. */
  type RefParser = string -> Option<Reference>

  // ---------------------------------------------------------------------
  // The two regular expressions

  /** `chownRE` (`^--chown`): the argument is an ownership flag. */
  predicate IsChownFlag(s: string) {
    HasPrefix(s, "--chown")
  }

  /** The characters `\s` stands for in the source's regular-expression
      dialect; `\S` is every other character. */
  predicate IsSpace(c: char) {
    c == ' ' || c == '\t' || c == '\n' || c == 12 as char || c == '\r'
  }

  predicate NoSpace(s: string) {
    forall i :: 0 <= i < |s| ==> !IsSpace(s[i])
  }

  /** `s` begins with a non-empty run of non-space characters ending at `k`,
      immediately followed by `://`. */
  predicate SchemeEndsAt(s: string, k: int) {
    1 <= k && k + 3 <= |s| && NoSpace(s[..k]) && s[k..k + 3] == "://"
  }

  /** What `urlRE` (`^\S+://`) matches, stated as the regular expression reads. */
  ghost predicate MatchesUrlPattern(s: string) {
    exists k :: SchemeEndsAt(s, k)
  }

  /** A left-to-right matcher for `urlRE`: `s[..i]` has been consumed as
      non-space characters. */
  function UrlScan(s: string, i: nat): bool
    requires i <= |s| && NoSpace(s[..i])
    decreases |s| - i
  {
    if 1 <= i && i + 3 <= |s| && s[i..i + 3] == "://" then true
    else if i < |s| && !IsSpace(s[i]) then
      assert s[..i + 1] == s[..i] + [s[i]];
      UrlScan(s, i + 1)
    else false
  }

  predicate IsUrl(s: string) {
    UrlScan(s, 0)
  }

  lemma {:induction false} UrlScanMatches(s: string, i: nat)
    requires i <= |s| && NoSpace(s[..i])
    ensures UrlScan(s, i) <==> exists k :: i <= k && SchemeEndsAt(s, k)
    decreases |s| - i
  {
    if 1 <= i && i + 3 <= |s| && s[i..i + 3] == "://" {
      assert SchemeEndsAt(s, i);
    } else if i < |s| && !IsSpace(s[i]) {
      assert s[..i + 1] == s[..i] + [s[i]];
      UrlScanMatches(s, i + 1);
      assert !SchemeEndsAt(s, i);
      assert forall k :: i <= k && SchemeEndsAt(s, k) ==> i + 1 <= k;
    } else {
      if i < |s| {
        forall k | i < k <= |s|
          ensures !NoSpace(s[..k])
        {
          assert s[..k][i] == s[i];
        }
      }
    }
  }

  /** The matcher accepts exactly what the pattern describes. */
  lemma IsUrlIffPattern(s: string)
    ensures IsUrl(s) <==> MatchesUrlPattern(s)
  {
    assert s[..0] == [];
    UrlScanMatches(s, 0);
  }

  // ---------------------------------------------------------------------
  // One directive

  predicate IsStaging(n: Directive) {
    n.value == "add" || n.value == "copy"
  }

  /** The source path of an `add`/`copy`: the first argument, or the second
      when the first is an ownership flag; a missing argument is a fault. */
  function StagedPath(n: Directive): (r: Result<string>)
    ensures r.Ok? <==> |n.args| >= 1 && (IsChownFlag(n.args[0]) ==> |n.args| >= 2)
    ensures r.Ok? && IsChownFlag(n.args[0]) ==> r.value == n.args[1]
    ensures r.Ok? && !IsChownFlag(n.args[0]) ==> r.value == n.args[0]
  {
    if |n.args| == 0 then Fatal(MissingArgument(n.value))
    else if IsChownFlag(n.args[0]) then
      if |n.args| < 2 then Fatal(MissingArgument(n.value)) else Ok(n.args[1])
    else Ok(n.args[0])
  }

  /** Applies one directive to the record being built. */
  function Step(rec: DepRecord, n: Directive, parse: RefParser): Result<DepRecord> {
    if n.value == "from" then
      if |n.args| == 0 then Fatal(MissingArgument(n.value))
      else match parse(n.args[0]) {
        case None => Fatal(BadReference(n.args[0]))
        case Some(r) => Ok(rec.(from := Some(r)))
      }
    else if IsStaging(n) then
      var path :- StagedPath(n);
      Ok(if IsUrl(path) then rec else rec.(addPaths := rec.addPaths + [path]))
    else Ok(rec)
  }

  // ---------------------------------------------------------------------
  // The whole recipe

  /** Continues the pass over `nodes` from the partial record `rec`. */
  function ExtractFrom(rec: DepRecord, nodes: seq<Directive>, parse: RefParser): Result<DepRecord>
    decreases |nodes|
  {
    if nodes == [] then Ok(rec)
    else
      var next :- Step(rec, nodes[0], parse);
      ExtractFrom(next, nodes[1..], parse)
  }

  /** `extractDeps`: the record of a whole recipe. */
  function ExtractDeps(nodes: seq<Directive>, parse: RefParser): Result<DepRecord> {
    ExtractFrom(EmptyRecord, nodes, parse)
  }

  // ---------------------------------------------------------------------
  // Reference definitions of what the pass computes

  /** The fault a directive raises, whatever record it is applied to. */
  function DirectiveFault(n: Directive, parse: RefParser): Option<Fault> {
    if n.value == "from" then
      if |n.args| == 0 then Some(MissingArgument(n.value))
      else if parse(n.args[0]).None? then Some(BadReference(n.args[0]))
      else None
    else if IsStaging(n) then
      match StagedPath(n) {
        case Fatal(f) => Some(f)
        case Ok(_) => None
      }
    else None
  }

  /** The argument of the last `from` directive, if any. */
  function LastFromArg(nodes: seq<Directive>): Option<string> {
    if nodes == [] then None
    else
      var n := nodes[|nodes| - 1];
      if n.value == "from" && |n.args| >= 1 then Some(n.args[0])
      else LastFromArg(nodes[..|nodes| - 1])
  }

  /** Every staged local path, one per `add`/`copy` that is not a URL, in
      directive order and with repetitions kept. */
  function Staged(nodes: seq<Directive>): seq<string> {
    if nodes == [] then [] else StagedBy(nodes[0]) + Staged(nodes[1..])
  }

  /** The local path one directive stages: one for an `add`/`copy` whose
      source is not a URL, none otherwise. */
  function StagedBy(n: Directive): seq<string> {
    if !IsStaging(n) then []
    else match StagedPath(n) {
      case Ok(p) => if IsUrl(p) then [] else [p]
      case Fatal(_) => []
    }
  }

  predicate AllAccepted(nodes: seq<Directive>, parse: RefParser) {
    forall i :: 0 <= i < |nodes| ==> DirectiveFault(nodes[i], parse).None?
  }

  /** A single directive: it faults exactly as `DirectiveFault` says, and
      otherwise only `from`, `add` and `copy` change the record. */
  lemma StepSpec(rec: DepRecord, n: Directive, parse: RefParser)
    ensures Step(rec, n, parse).Fatal? <==> DirectiveFault(n, parse).Some?
    ensures Step(rec, n, parse).Fatal? ==> Step(rec, n, parse).fault == DirectiveFault(n, parse).value
    ensures n.value != "from" && !IsStaging(n) ==> Step(rec, n, parse) == Ok(rec)
    ensures Step(rec, n, parse).Ok? && n.value == "from" ==>
      Step(rec, n, parse).value == rec.(from := parse(n.args[0]))
    ensures Step(rec, n, parse).Ok? && n.value != "from" ==>
      Step(rec, n, parse).value == rec.(addPaths := rec.addPaths + StagedBy(n))
  {
  }

  lemma {:induction false} LastFromArgCons(n: Directive, nodes: seq<Directive>)
    ensures LastFromArg([n] + nodes) ==
      (if LastFromArg(nodes).Some? then LastFromArg(nodes)
       else if n.value == "from" && |n.args| >= 1 then Some(n.args[0])
       else None)
    decreases |nodes|
  {
    if nodes == [] {
      assert [n] + nodes == [n];
      assert [n][..0] == [];
    } else {
      var last := nodes[|nodes| - 1];
      assert ([n] + nodes)[|nodes|] == last;
      assert ([n] + nodes)[..|nodes|] == [n] + nodes[..|nodes| - 1];
      LastFromArgCons(n, nodes[..|nodes| - 1]);
    }
  }

  lemma AllAcceptedCons(nodes: seq<Directive>, parse: RefParser)
    requires nodes != []
    ensures AllAccepted(nodes, parse) <==>
      DirectiveFault(nodes[0], parse).None? && AllAccepted(nodes[1..], parse)
  {
    if DirectiveFault(nodes[0], parse).None? && AllAccepted(nodes[1..], parse) {
      forall i | 0 <= i < |nodes|
        ensures DirectiveFault(nodes[i], parse).None?
      {
        if i > 0 {
          assert nodes[i] == nodes[1..][i - 1];
        }
      }
    }
  }

  /** The pass from a partial record succeeds exactly when no directive
      faults. */
  lemma {:induction false} ExtractFromOk(rec: DepRecord, nodes: seq<Directive>, parse: RefParser)
    ensures ExtractFrom(rec, nodes, parse).Ok? <==> AllAccepted(nodes, parse)
    decreases |nodes|
  {
    if nodes != [] {
      var n := nodes[0];
      StepSpec(rec, n, parse);
      AllAcceptedCons(nodes, parse);
      if DirectiveFault(n, parse).None? {
        ExtractFromOk(Step(rec, n, parse).value, nodes[1..], parse);
      }
    }
  }

  /** A successful pass from a partial record appends the staged paths, in
      order. */
  lemma {:induction false} ExtractFromPaths(rec: DepRecord, nodes: seq<Directive>, parse: RefParser)
    requires ExtractFrom(rec, nodes, parse).Ok?
    ensures ExtractFrom(rec, nodes, parse).value.addPaths == rec.addPaths + Staged(nodes)
    decreases |nodes|
  {
    if nodes == [] {
      assert rec.addPaths + [] == rec.addPaths;
    } else {
      var n := nodes[0];
      StepSpec(rec, n, parse);
      var next := Step(rec, n, parse).value;
      assert ExtractFrom(rec, nodes, parse) == ExtractFrom(next, nodes[1..], parse);
      ExtractFromPaths(next, nodes[1..], parse);
      var here := StagedBy(n);
      assert next.addPaths == rec.addPaths + here;
      AppendAssoc(rec.addPaths, here, Staged(nodes[1..]));
    }
  }

  /** A successful pass from a partial record ends with the base image of the
      last `from`, or the record's own if there is none. */
  lemma {:induction false} ExtractFromBase(rec: DepRecord, nodes: seq<Directive>, parse: RefParser)
    requires ExtractFrom(rec, nodes, parse).Ok?
    ensures ExtractFrom(rec, nodes, parse).value.from ==
      (match LastFromArg(nodes) case None => rec.from case Some(a) => parse(a))
    decreases |nodes|
  {
    if nodes != [] {
      var n := nodes[0];
      StepSpec(rec, n, parse);
      var next := Step(rec, n, parse).value;
      assert ExtractFrom(rec, nodes, parse) == ExtractFrom(next, nodes[1..], parse);
      ExtractFromBase(next, nodes[1..], parse);
      assert nodes == [n] + nodes[1..];
      LastFromArgCons(n, nodes[1..]);
    }
  }

  /** `extractDeps` succeeds exactly when no directive faults; its base image
      is the parse of the last `from` argument (the last `from` wins) and its
      staged paths are exactly `Staged(nodes)`. */
  lemma ExtractDepsSpec(nodes: seq<Directive>, parse: RefParser)
    ensures ExtractDeps(nodes, parse).Ok? <==> AllAccepted(nodes, parse)
    ensures ExtractDeps(nodes, parse).Ok? ==>
      ExtractDeps(nodes, parse).value ==
        DepRecord(match LastFromArg(nodes) case None => None case Some(a) => parse(a), Staged(nodes))
  {
    ExtractFromOk(EmptyRecord, nodes, parse);
    if ExtractDeps(nodes, parse).Ok? {
      ExtractFromPaths(EmptyRecord, nodes, parse);
      ExtractFromBase(EmptyRecord, nodes, parse);
    }
  }

  /** A failing pass reports the fault of the first directive that faults. */
  lemma {:induction false} ExtractFromFirstFault(rec: DepRecord, nodes: seq<Directive>, parse: RefParser, i: nat)
    requires i < |nodes| && DirectiveFault(nodes[i], parse).Some?
    requires forall j :: 0 <= j < i ==> DirectiveFault(nodes[j], parse).None?
    ensures ExtractFrom(rec, nodes, parse) == Fatal(DirectiveFault(nodes[i], parse).value)
    decreases i
  {
    StepSpec(rec, nodes[0], parse);
    if i > 0 {
      ExtractFromFirstFault(Step(rec, nodes[0], parse).value, nodes[1..], parse, i - 1);
    }
  }

  /** The pass over a concatenation is the pass over the first part continued
      over the second. */
  lemma {:induction false} ExtractFromAppend(rec: DepRecord, a: seq<Directive>, b: seq<Directive>, parse: RefParser)
    ensures ExtractFrom(rec, a + b, parse) ==
      (match ExtractFrom(rec, a, parse) case Fatal(f) => Fatal(f) case Ok(r) => ExtractFrom(r, b, parse))
    decreases |a|
  {
    if a == [] {
      assert a + b == b;
    } else {
      assert (a + b)[0] == a[0];
      assert (a + b)[1..] == a[1..] + b;
      match Step(rec, a[0], parse) {
        case Fatal(_) =>
        case Ok(next) => ExtractFromAppend(next, a[1..], b, parse);
      }
    }
  }

  /** A directive other than `from`, `add` and `copy` can be dropped from a
      recipe without changing its record. */
  lemma IgnoredDirective(a: seq<Directive>, n: Directive, b: seq<Directive>, parse: RefParser)
    requires n.value != "from" && !IsStaging(n)
    ensures ExtractDeps(a + [n] + b, parse) == ExtractDeps(a + b, parse)
  {
    ExtractFromAppend(EmptyRecord, a + [n], b, parse);
    ExtractFromAppend(EmptyRecord, a, [n], parse);
    ExtractFromAppend(EmptyRecord, a, b, parse);
    match ExtractFrom(EmptyRecord, a, parse) {
      case Fatal(_) =>
      case Ok(r) =>
        assert [n][1..] == [];
        assert ExtractFrom(r, [n], parse) == Ok(r);
    }
  }
}

/** Rule emission (the loop at the end of `main`): the Make rules written for
    each recipe, and their text. */
module Emit {
  import opened Strs
  import opened Faults
  import opened Refs
  import opened Extract
  import opened Classify
  import opened Tree
  import opened FileDependencies
  import opened Scan

  /** One emitted Make rule: `target: prereqs | orderOnly`, then its recipe
      lines, each introduced by a tab. */
  datatype Rule = Rule(target: string, prereqs: seq<string>, orderOnly: seq<string>, recipe: seq<string>)

  /** The classified base image of a record. */
  datatype BaseImage =
    /** Built by another recipe of the tree, under this recipe name. */
    | LocalBuild(recipe: string)
    /** Pulled from a registry; `marker` is its pull-cache marker file. */
    | RemotePull(remote: string, marker: string)

  const Header := "# file dependencies based on ADD and COPY directives\n"

  // ---------------------------------------------------------------------
  // Rule text

  function RecipeText(lines: seq<string>): string {
    if lines == [] then "" else "\t" + lines[0] + "\n" + RecipeText(lines[1..])
  }

  /** A rule as Make text, followed by an empty line. */
  function Render(r: Rule): string {
    r.target + ": " + Join(r.prereqs, " ")
    + (if r.orderOnly == [] then "" else (if r.prereqs == [] then "" else " ") + "| " + Join(r.orderOnly, " "))
    + "\n" + RecipeText(r.recipe) + "\n"
  }

  function RenderAll(rs: seq<Rule>): string {
    if rs == [] then "" else Render(rs[0]) + RenderAll(rs[1..])
  }

  // ---------------------------------------------------------------------
  // Rules of one record

  /** Classifies the base image: a `local` tag names a recipe of the tree
      (the image name with the registry URL stripped); anything else is
      pulled under its full string form. */
  function BaseImageOf(rec: DepRecord, url: string): (r: Result<BaseImage>)
    ensures r.Ok? && r.value.LocalBuild? <==> IsLocal(rec) && HasPrefix(rec.from.value.name, url)
    ensures r.Ok? && r.value.RemotePull? <==> !IsLocal(rec) && rec.from.Some?
    ensures r.Ok? && r.value.LocalBuild? ==> url + r.value.recipe == rec.from.value.name
    ensures r.Ok? && r.value.RemotePull? ==>
      r.value.remote == ToString(rec.from.value) && r.value.marker == MarkerName(r.value.remote)
    ensures IsLocal(rec) && !HasPrefix(rec.from.value.name, url) ==>
      r == Fatal(RegistryMismatch(ToString(rec.from.value), url))
    ensures rec.from.None? ==> r == Fatal(NoBaseImage)
  {
    if IsLocal(rec) then
      var recipe :- LocalFrom(rec, url);
      Ok(LocalBuild(recipe))
    else
      var remote :- RemoteFrom(rec);
      Ok(RemotePull(remote, MarkerName(remote)))
  }

  /** The prerequisite a recipe's build target takes for its base image. */
  function BaseTarget(b: BaseImage): string {
    match b
    case LocalBuild(recipe) => ".build/" + recipe
    case RemotePull(_, marker) => ".remote/" + marker
  }

  /** The pull-cache rule of a remote image: pull it, write its image id to a
      temporary file, and replace the marker only when the id differs. */
  function PullRule(remote: string, marker: string): Rule {
    Rule(".remote/" + marker, [".pull-once"], [".remote"], [
      "docker pull " + remote,
      "@docker image inspect " + remote + " --format '{{.Id}}' > $(TMPDIR)/" + marker,
      "@diff $(TMPDIR)/" + marker + " $@ \\\n\t  || mv $(TMPDIR)/" + marker + " $@"
    ])
  }

  /** The rules emitted for recipe `name`, in the order they are printed. */
  function RulesFor(name: string, base: BaseImage, deps: seq<string>): seq<Rule> {
    [Rule(".build/" + name, [BaseTarget(base)], [], [])] + (PullRules(base) + TailRules(name, deps))
  }

  /** The rules of one record: its base image is classified first, then its
      file dependencies are listed; either can end the run. */
  function RecordRules(tree: FsNode, name: string, rec: DepRecord, url: string): Result<seq<Rule>> {
    var base :- BaseImageOf(rec, url);
    var deps :- FileDeps(tree, name, rec.addPaths);
    Ok(RulesFor(name, base, deps))
  }

  /** The classification as the source writes it, calling `localFrom` as
      written: every `local` base image ends the run, and any other base
      image classifies as in `BaseImageOf`. */
  function BaseImageOfAsWritten(rec: DepRecord, url: string): (r: Result<BaseImage>)
    ensures IsLocal(rec) ==> r.Fatal?
    ensures !IsLocal(rec) ==> r == BaseImageOf(rec, url)
  {
    if IsLocal(rec) then
      // `localFrom` as written never returns a name
      Fatal(LocalFromAsWritten(rec, url).fault)
    else
      var remote :- RemoteFrom(rec);
      Ok(RemotePull(remote, MarkerName(remote)))
  }

  function RecordRulesAsWritten(tree: FsNode, name: string, rec: DepRecord, url: string): Result<seq<Rule>> {
    var base :- BaseImageOfAsWritten(rec, url);
    var deps :- FileDeps(tree, name, rec.addPaths);
    Ok(RulesFor(name, base, deps))
  }

  // ---------------------------------------------------------------------
  // The prerequisites the rules list for each target

  /** All prerequisites the rules list for `target`, rule after rule, as
      Make collects them from several rules with the same target. */
  function PrereqsOf(rs: seq<Rule>, target: string): seq<string> {
    if rs == [] then []
    else (if rs[0].target == target then rs[0].prereqs else []) + PrereqsOf(rs[1..], target)
  }

  /** All order-only prerequisites the rules list for `target`. */
  function OrderOnlyOf(rs: seq<Rule>, target: string): seq<string> {
    if rs == [] then []
    else (if rs[0].target == target then rs[0].orderOnly else []) + OrderOnlyOf(rs[1..], target)
  }

  /** The number of rules for `target` that carry a recipe. */
  function RecipesFor(rs: seq<Rule>, target: string): nat {
    if rs == [] then 0
    else (if rs[0].target == target && rs[0].recipe != [] then 1 else 0) + RecipesFor(rs[1..], target)
  }

  lemma {:induction false} GatherAppend(a: seq<Rule>, b: seq<Rule>, target: string)
    ensures PrereqsOf(a + b, target) == PrereqsOf(a, target) + PrereqsOf(b, target)
    ensures OrderOnlyOf(a + b, target) == OrderOnlyOf(a, target) + OrderOnlyOf(b, target)
    ensures RecipesFor(a + b, target) == RecipesFor(a, target) + RecipesFor(b, target)
  {
    if a == [] {
      assert a + b == b;
    } else {
      assert (a + b)[0] == a[0];
      assert (a + b)[1..] == a[1..] + b;
      GatherAppend(a[1..], b, target);
      var own := if a[0].target == target then a[0].prereqs else [];
      AppendAssoc(own, PrereqsOf(a[1..], target), PrereqsOf(b, target));
      var ownOrder := if a[0].target == target then a[0].orderOnly else [];
      AppendAssoc(ownOrder, OrderOnlyOf(a[1..], target), OrderOnlyOf(b, target));
    }
  }

  lemma GatherOne(r: Rule, target: string)
    ensures PrereqsOf([r], target) == if r.target == target then r.prereqs else []
    ensures OrderOnlyOf([r], target) == if r.target == target then r.orderOnly else []
    ensures RecipesFor([r], target) == if r.target == target && r.recipe != [] then 1 else 0
  {
    assert [r][1..] == [];
  }

  /** `x` when `c` holds, nothing otherwise. */
  function Sel(c: bool, x: seq<string>): seq<string> {
    if c then x else []
  }

  function PullRules(base: BaseImage): seq<Rule> {
    match base
    case RemotePull(remote, marker) => [PullRule(remote, marker)]
    case LocalBuild(_) => []
  }

  /** The four rules every recipe gets after its base-image rules. */
  function TailRules(name: string, deps: seq<string>): seq<Rule> {
    [ Rule("build-all", ["build-" + name], [], []),
      Rule("push-all", ["push-" + name], [], []),
      Rule(".build/" + name, [], [".build"], []),
      Rule(".build/" + name, deps, [], []) ]
  }

  lemma RulesForParts(name: string, base: BaseImage, deps: seq<string>, t: string)
    ensures RulesFor(name, base, deps) ==
      [Rule(".build/" + name, [BaseTarget(base)], [], [])] + (PullRules(base) + TailRules(name, deps))
    ensures PrereqsOf(RulesFor(name, base, deps), t) ==
      PrereqsOf([Rule(".build/" + name, [BaseTarget(base)], [], [])], t)
      + (PrereqsOf(PullRules(base), t) + PrereqsOf(TailRules(name, deps), t))
    ensures OrderOnlyOf(RulesFor(name, base, deps), t) ==
      OrderOnlyOf([Rule(".build/" + name, [BaseTarget(base)], [], [])], t)
      + (OrderOnlyOf(PullRules(base), t) + OrderOnlyOf(TailRules(name, deps), t))
    ensures RecipesFor(RulesFor(name, base, deps), t) ==
      RecipesFor([Rule(".build/" + name, [BaseTarget(base)], [], [])], t)
      + (RecipesFor(PullRules(base), t) + RecipesFor(TailRules(name, deps), t))
  {
    var r0 := Rule(".build/" + name, [BaseTarget(base)], [], []);
    GatherAppend([r0], PullRules(base) + TailRules(name, deps), t);
    GatherAppend(PullRules(base), TailRules(name, deps), t);
  }

  /** What the four common rules give each target. */
  lemma TailGather(name: string, deps: seq<string>, t: string)
    ensures PrereqsOf(TailRules(name, deps), t) ==
      Sel(t == "build-all", ["build-" + name]) + Sel(t == "push-all", ["push-" + name]) + Sel(t == ".build/" + name, deps)
    ensures OrderOnlyOf(TailRules(name, deps), t) == Sel(t == ".build/" + name, [".build"])
    ensures RecipesFor(TailRules(name, deps), t) == 0
  {
    var ts := TailRules(name, deps);
    var b := ".build/" + name;
    TargetsDistinct(name, "");
    assert ts[1..][1..][1..] == [Rule(b, deps, [], [])];
    GatherOne(Rule(b, deps, [], []), t);
    assert ts[1..][1..] == [Rule(b, [], [".build"], [])] + ts[1..][1..][1..];
    GatherAppend([Rule(b, [], [".build"], [])], ts[1..][1..][1..], t);
    GatherOne(Rule(b, [], [".build"], []), t);
    assert PrereqsOf(ts[1..][1..], t) == Sel(t == b, deps);
    assert OrderOnlyOf(ts[1..][1..], t) == Sel(t == b, [".build"]);
    assert PrereqsOf(ts[1..], t) == Sel(t == "push-all", ["push-" + name]) + Sel(t == b, deps);
  }

  /** What a pulled image's rule gives each target. */
  lemma PullGather(base: BaseImage, t: string)
    ensures PrereqsOf(PullRules(base), t) == Sel(base.RemotePull? && t == ".remote/" + base.marker, [".pull-once"])
    ensures OrderOnlyOf(PullRules(base), t) == Sel(base.RemotePull? && t == ".remote/" + base.marker, [".remote"])
    ensures RecipesFor(PullRules(base), t) == if base.RemotePull? && t == ".remote/" + base.marker then 1 else 0
  {
    if base.RemotePull? {
      GatherOne(PullRule(base.remote, base.marker), t);
    }
  }

  /** The targets one recipe's rules name are pairwise distinct: the build
      target, the two aggregates and the marker of a pulled image. */
  lemma TargetsDistinct(name: string, marker: string)
    ensures ".build/" + name != "build-all" && ".build/" + name != "push-all"
    ensures ".build/" + name != ".remote/" + marker
    ensures ".remote/" + marker != "build-all" && ".remote/" + marker != "push-all"
  {
    var b := ".build/" + name;
    var m := ".remote/" + marker;
    assert b[0] == '.' && b[1] == 'b' && m[0] == '.' && m[1] == 'r';
    assert "build-all"[0] == 'b' && "push-all"[0] == 'p';
  }

  lemma PrereqsOfBuild(name: string, base: BaseImage, deps: seq<string>)
    ensures PrereqsOf(RulesFor(name, base, deps), ".build/" + name) == [BaseTarget(base)] + deps
  {
    var t := ".build/" + name;
    RulesForParts(name, base, deps, t);
    GatherOne(Rule(t, [BaseTarget(base)], [], []), t);
    TailGather(name, deps, t);
    PullGather(base, t);
    if base.RemotePull? {
      TargetsDistinct(name, base.marker);
    }
    TargetsDistinct(name, "");
    assert Sel(t == "build-all", ["build-" + name]) == [] && Sel(t == "push-all", ["push-" + name]) == [];
    EmptyAppend(deps);
    assert PrereqsOf(TailRules(name, deps), t) == deps;
    assert PrereqsOf(PullRules(base), t) == [];
    EmptyAppend(deps);
  }

  lemma EmptyAppend(x: seq<string>)
    ensures [] + x == x && [] + [] + x == x && x + [] == x
  {
  }

  lemma PrereqsOfAggregate(name: string, base: BaseImage, deps: seq<string>, t: string)
    requires t == "build-all" || t == "push-all"
    ensures PrereqsOf(RulesFor(name, base, deps), t) == [(if t == "build-all" then "build-" else "push-") + name]
  {
    RulesForParts(name, base, deps, t);
    GatherOne(Rule(".build/" + name, [BaseTarget(base)], [], []), t);
    TailGather(name, deps, t);
    PullGather(base, t);
    if base.RemotePull? {
      TargetsDistinct(name, base.marker);
    }
    TargetsDistinct(name, "");
    if t == "build-all" {
      assert PrereqsOf(TailRules(name, deps), t) == ["build-" + name] + [] + [];
    } else {
      assert PrereqsOf(TailRules(name, deps), t) == [] + ["push-" + name] + [];
    }
  }

  lemma PrereqsOfOther(name: string, base: BaseImage, deps: seq<string>, t: string)
    requires t != ".build/" + name && t != "build-all" && t != "push-all"
    ensures PrereqsOf(RulesFor(name, base, deps), t) ==
      Sel(base.RemotePull? && t == ".remote/" + base.marker, [".pull-once"])
  {
    RulesForParts(name, base, deps, t);
    GatherOne(Rule(".build/" + name, [BaseTarget(base)], [], []), t);
    TailGather(name, deps, t);
    PullGather(base, t);
    assert PrereqsOf(TailRules(name, deps), t) == [] + [] + [];
  }

  /** The prerequisites one recipe's rules list for each target: the build target depends on the base image's target followed by
      the file dependencies, each aggregate on the recipe's own entry, a
      pulled image's marker on `.pull-once`, and nothing else on anything. */
  lemma RulesForPrereqs(name: string, base: BaseImage, deps: seq<string>, t: string)
    ensures PrereqsOf(RulesFor(name, base, deps), t) ==
      if t == ".build/" + name then [BaseTarget(base)] + deps
      else if t == "build-all" then ["build-" + name]
      else if t == "push-all" then ["push-" + name]
      else if base.RemotePull? && t == ".remote/" + base.marker then [".pull-once"]
      else []
  {
    if t == ".build/" + name {
      PrereqsOfBuild(name, base, deps);
    } else if t == "build-all" || t == "push-all" {
      PrereqsOfAggregate(name, base, deps, t);
    } else {
      PrereqsOfOther(name, base, deps, t);
    }
  }

  /** The order-only prerequisites of one recipe's rules: the build
      directory for the build target, the marker directory for a pulled
      image's marker. */
  lemma RulesForOrderOnly(name: string, base: BaseImage, deps: seq<string>, t: string)
    ensures OrderOnlyOf(RulesFor(name, base, deps), t) ==
      if t == ".build/" + name then [".build"]
      else if base.RemotePull? && t == ".remote/" + base.marker then [".remote"]
      else []
  {
    var b := ".build/" + name;
    RulesForParts(name, base, deps, t);
    GatherOne(Rule(b, [BaseTarget(base)], [], []), t);
    TailGather(name, deps, t);
    PullGather(base, t);
    TargetsDistinct(name, if base.RemotePull? then base.marker else "");
    var pull := Sel(base.RemotePull? && t == ".remote/" + base.marker, [".remote"]);
    var tail := Sel(t == b, [".build"]);
    assert OrderOnlyOf(RulesFor(name, base, deps), t) == [] + (pull + tail);
    if t == b {
      assert [] + (pull + tail) == [] + ([] + [".build"]);
    } else {
      assert [] + (pull + tail) == [] + (pull + []);
    }
  }

  /** A recipe's rules carry a recipe (a command list) only in the pull rule,
      and only for a remote base image: one for its marker, none otherwise. */
  lemma PullRuleOnlyForRemote(name: string, base: BaseImage, deps: seq<string>, t: string)
    ensures RecipesFor(RulesFor(name, base, deps), t) ==
      if base.RemotePull? && t == ".remote/" + base.marker then 1 else 0
  {
    RulesForParts(name, base, deps, t);
    GatherOne(Rule(".build/" + name, [BaseTarget(base)], [], []), t);
    TailGather(name, deps, t);
    PullGather(base, t);
  }

  /** A record's rules exist exactly when its base image classifies and its
      file dependencies list; a failing classification wins over a failing
      listing, as it comes first. */
  lemma RecordRulesSpec(tree: FsNode, name: string, rec: DepRecord, url: string)
    ensures RecordRules(tree, name, rec, url).Ok? <==>
      BaseImageOf(rec, url).Ok? && FileDeps(tree, name, rec.addPaths).Ok?
    ensures BaseImageOf(rec, url).Fatal? ==> RecordRules(tree, name, rec, url) == Fatal(BaseImageOf(rec, url).fault)
    ensures RecordRules(tree, name, rec, url).Ok? ==>
      RecordRules(tree, name, rec, url).value ==
        RulesFor(name, BaseImageOf(rec, url).value, FileDeps(tree, name, rec.addPaths).value)
  {
  }

  /** The rules of all recipes, in the given order of recipe names. */
  function AllRules(tree: FsNode, store: Store, order: seq<string>, url: string): Result<seq<Rule>>
    requires Covers(order, store)
  {
    if order == [] then Ok([])
    else
      CoversTail(order, store);
      var here :- RecordRules(tree, order[0], store[order[0]], url);
      var rest :- AllRules(tree, store, order[1..], url);
      Ok(here + rest)
  }

  /** Every name of `order` has a record. */
  predicate Covers(order: seq<string>, store: Store) {
    forall i :: 0 <= i < |order| ==> order[i] in store
  }

  /** `order` lists every recipe name of `store` exactly once, as ranging
      over the record map does (in an order the runtime chooses). */
  predicate Enumerates(order: seq<string>, store: Store) {
    && Covers(order, store)
    && (forall n :: n in store ==> n in order)
    && Distinct(order)
  }

  /** No name occurs twice in `order`. */
  predicate Distinct(order: seq<string>) {
    forall i, j :: 0 <= i < j < |order| ==> order[i] != order[j]
  }

  /** The first name of a distinct order does not occur again, and the rest
      is distinct. */
  lemma DistinctTail(order: seq<string>)
    requires Distinct(order) && order != []
    ensures order[0] !in order[1..] && Distinct(order[1..])
  {
    forall i | 0 <= i < |order[1..]|
      ensures order[1..][i] != order[0]
    {
      assert order[1..][i] == order[i + 1];
    }
    forall i, j | 0 <= i < j < |order[1..]|
      ensures order[1..][i] != order[1..][j]
    {
      assert order[1..][i] == order[i + 1] && order[1..][j] == order[j + 1];
    }
  }

  lemma CoversTail(order: seq<string>, store: Store)
    requires Covers(order, store) && order != []
    ensures order[0] in store && Covers(order[1..], store)
  {
    forall i | 0 <= i < |order[1..]|
      ensures order[1..][i] in store
    {
      assert order[1..][i] == order[i + 1];
    }
  }

  /** The rules of every name of `order` exist. */
  predicate Emits(tree: FsNode, store: Store, order: seq<string>, url: string)
    requires Covers(order, store)
  {
    forall i :: 0 <= i < |order| ==> RecordRules(tree, order[i], store[order[i]], url).Ok?
  }

  lemma EmitsCons(tree: FsNode, store: Store, order: seq<string>, url: string)
    requires Covers(order, store) && order != []
    ensures Covers(order[1..], store)
    ensures Emits(tree, store, order, url) <==>
      RecordRules(tree, order[0], store[order[0]], url).Ok? && Emits(tree, store, order[1..], url)
  {
    CoversTail(order, store);
    if RecordRules(tree, order[0], store[order[0]], url).Ok? && Emits(tree, store, order[1..], url) {
      forall i | 1 <= i < |order|
        ensures RecordRules(tree, order[i], store[order[i]], url).Ok?
      {
        assert order[i] == order[1..][i - 1];
      }
    }
    if Emits(tree, store, order, url) {
      forall i | 0 <= i < |order[1..]|
        ensures RecordRules(tree, order[1..][i], store[order[1..][i]], url).Ok?
      {
        assert order[1..][i] == order[i + 1];
      }
    }
  }

  /** The rules of all recipes exist exactly when every recipe's rules do. */
  lemma {:induction false} AllRulesOk(tree: FsNode, store: Store, order: seq<string>, url: string)
    requires Covers(order, store)
    ensures AllRules(tree, store, order, url).Ok? <==> Emits(tree, store, order, url)
  {
    if order != [] {
      EmitsCons(tree, store, order, url);
      AllRulesOk(tree, store, order[1..], url);
      assert AllRules(tree, store, order, url).Ok? <==>
        RecordRules(tree, order[0], store[order[0]], url).Ok? && AllRules(tree, store, order[1..], url).Ok?;
    }
  }

  /** The names `ns`, each behind `prefix`. */
  function Prefixed(prefix: string, ns: seq<string>): (r: seq<string>)
    ensures |r| == |ns|
    ensures forall i :: 0 <= i < |ns| ==> r[i] == prefix + ns[i]
  {
    if ns == [] then [] else [prefix + ns[0]] + Prefixed(prefix, ns[1..])
  }

  /** `build-all` and `push-all` depend on every recipe, in the order the
      recipes are emitted. */
  lemma {:induction false} AllRulesAggregates(tree: FsNode, store: Store, order: seq<string>, url: string)
    requires Covers(order, store)
    requires AllRules(tree, store, order, url).Ok?
    ensures PrereqsOf(AllRules(tree, store, order, url).value, "build-all") == Prefixed("build-", order)
    ensures PrereqsOf(AllRules(tree, store, order, url).value, "push-all") == Prefixed("push-", order)
  {
    if order != [] {
      var n := order[0];
      AllRulesCons(tree, store, order, url);
      var base := BaseImageOf(store[n], url).value;
      var deps := FileDeps(tree, n, store[n].addPaths).value;
      AllRulesAggregates(tree, store, order[1..], url);
      GatherAppend(RulesFor(n, base, deps), AllRules(tree, store, order[1..], url).value, "build-all");
      GatherAppend(RulesFor(n, base, deps), AllRules(tree, store, order[1..], url).value, "push-all");
      PrereqsOfAggregate(n, base, deps, "build-all");
      PrereqsOfAggregate(n, base, deps, "push-all");
    }
  }

  /** Build targets of different recipes are different targets. */
  lemma BuildTargetInjective(a: string, b: string)
    requires ".build/" + a == ".build/" + b
    ensures a == b
  {
    assert a == (".build/" + a)[7..];
    assert b == (".build/" + b)[7..];
  }

  /** A recipe's rules say nothing about another recipe's build target. */
  lemma OtherBuildTarget(m: string, base: BaseImage, deps: seq<string>, n: string)
    requires n != m
    ensures PrereqsOf(RulesFor(m, base, deps), ".build/" + n) == []
    ensures OrderOnlyOf(RulesFor(m, base, deps), ".build/" + n) == []
  {
    RulesForPrereqs(m, base, deps, ".build/" + n);
    RulesForOrderOnly(m, base, deps, ".build/" + n);
    if ".build/" + n == ".build/" + m {
      BuildTargetInjective(n, m);
    }
    if base.RemotePull? {
      TargetsDistinct(n, base.marker);
    } else {
      TargetsDistinct(n, "");
    }
  }

  /** The rules of a non-empty order: the first recipe's, then the rest. */
  lemma AllRulesCons(tree: FsNode, store: Store, order: seq<string>, url: string)
    requires Covers(order, store) && order != []
    requires AllRules(tree, store, order, url).Ok?
    ensures Covers(order[1..], store)
    ensures BaseImageOf(store[order[0]], url).Ok?
    ensures FileDeps(tree, order[0], store[order[0]].addPaths).Ok?
    ensures AllRules(tree, store, order[1..], url).Ok?
    ensures AllRules(tree, store, order, url).value ==
      RulesFor(order[0], BaseImageOf(store[order[0]], url).value, FileDeps(tree, order[0], store[order[0]].addPaths).value)
      + AllRules(tree, store, order[1..], url).value
  {
    CoversTail(order, store);
    RecordRulesSpec(tree, order[0], store[order[0]], url);
  }

  /** A name without rules contributes nothing to its build target. */
  lemma {:induction false} AllRulesNotListed(tree: FsNode, store: Store, order: seq<string>, url: string, n: string)
    requires Covers(order, store)
    requires AllRules(tree, store, order, url).Ok?
    requires n !in order
    ensures PrereqsOf(AllRules(tree, store, order, url).value, ".build/" + n) == []
    ensures OrderOnlyOf(AllRules(tree, store, order, url).value, ".build/" + n) == []
  {
    if order != [] {
      var m := order[0];
      AllRulesCons(tree, store, order, url);
      var base := BaseImageOf(store[m], url).value;
      var deps := FileDeps(tree, m, store[m].addPaths).value;
      assert n !in order[1..];
      AllRulesNotListed(tree, store, order[1..], url, n);
      GatherAppend(RulesFor(m, base, deps), AllRules(tree, store, order[1..], url).value, ".build/" + n);
      OtherBuildTarget(m, base, deps, n);
    }
  }

  /** With each recipe listed once, the build target of a recipe depends on
      exactly its base image's target and its file dependencies, and
      order-only on the build directory: no other recipe's rules add to it. */
  lemma {:induction false} AllRulesBuildTarget(tree: FsNode, store: Store, order: seq<string>, url: string, n: string)
    requires Covers(order, store)
    requires Distinct(order)
    requires AllRules(tree, store, order, url).Ok?
    requires n in order
    ensures n in store
    ensures BaseImageOf(store[n], url).Ok? && FileDeps(tree, n, store[n].addPaths).Ok?
    ensures PrereqsOf(AllRules(tree, store, order, url).value, ".build/" + n) ==
      [BaseTarget(BaseImageOf(store[n], url).value)] + FileDeps(tree, n, store[n].addPaths).value
    ensures OrderOnlyOf(AllRules(tree, store, order, url).value, ".build/" + n) == [".build"]
  {
    DistinctTail(order);
    if n == order[0] {
      BuildTargetHead(tree, store, order, url);
    } else {
      assert n in order[1..] by {
        var k :| 0 <= k < |order| && order[k] == n;
        assert order[1..][k - 1] == n;
      }
      BuildTargetLater(tree, store, order, url, n);
      AllRulesBuildTarget(tree, store, order[1..], url, n);
    }
  }

  /** The first recipe's build target, when no later recipe shares its name. */
  lemma BuildTargetHead(tree: FsNode, store: Store, order: seq<string>, url: string)
    requires Covers(order, store) && order != [] && order[0] !in order[1..]
    requires AllRules(tree, store, order, url).Ok?
    ensures BaseImageOf(store[order[0]], url).Ok? && FileDeps(tree, order[0], store[order[0]].addPaths).Ok?
    ensures PrereqsOf(AllRules(tree, store, order, url).value, ".build/" + order[0]) ==
      [BaseTarget(BaseImageOf(store[order[0]], url).value)] + FileDeps(tree, order[0], store[order[0]].addPaths).value
    ensures OrderOnlyOf(AllRules(tree, store, order, url).value, ".build/" + order[0]) == [".build"]
  {
    var m := order[0];
    var t := ".build/" + m;
    AllRulesCons(tree, store, order, url);
    var base := BaseImageOf(store[m], url).value;
    var deps := FileDeps(tree, m, store[m].addPaths).value;
    var first := RulesFor(m, base, deps);
    var rest := AllRules(tree, store, order[1..], url).value;
    GatherAppend(first, rest, t);
    PrereqsOfBuild(m, base, deps);
    RulesForOrderOnly(m, base, deps, t);
    AllRulesNotListed(tree, store, order[1..], url, m);
    EmptyAppend([BaseTarget(base)] + deps);
    EmptyAppend([".build"]);
  }

  /** A later recipe's build target gets nothing from the first recipe. */
  lemma BuildTargetLater(tree: FsNode, store: Store, order: seq<string>, url: string, n: string)
    requires Covers(order, store) && order != [] && n != order[0]
    requires AllRules(tree, store, order, url).Ok?
    ensures Covers(order[1..], store) && AllRules(tree, store, order[1..], url).Ok?
    ensures PrereqsOf(AllRules(tree, store, order, url).value, ".build/" + n) ==
      PrereqsOf(AllRules(tree, store, order[1..], url).value, ".build/" + n)
    ensures OrderOnlyOf(AllRules(tree, store, order, url).value, ".build/" + n) ==
      OrderOnlyOf(AllRules(tree, store, order[1..], url).value, ".build/" + n)
  {
    var m := order[0];
    var t := ".build/" + n;
    AllRulesCons(tree, store, order, url);
    var base := BaseImageOf(store[m], url).value;
    var deps := FileDeps(tree, m, store[m].addPaths).value;
    var rest := AllRules(tree, store, order[1..], url).value;
    GatherAppend(RulesFor(m, base, deps), rest, t);
    OtherBuildTarget(m, base, deps, n);
    EmptyAppend(PrereqsOf(rest, t));
    EmptyAppend(OrderOnlyOf(rest, t));
  }

  /** How many of the recipes named in `order` pull the image whose marker
      target is `t`. */
  function Pulls(store: Store, order: seq<string>, url: string, t: string): nat
    requires Covers(order, store)
  {
    if order == [] then 0
    else
      CoversTail(order, store);
      var b := BaseImageOf(store[order[0]], url);
      (if b.Ok? && b.value.RemotePull? && t == ".remote/" + b.value.marker then 1 else 0)
      + Pulls(store, order[1..], url, t)
  }

  /** A pulled image's marker target gets one pull recipe per recipe that
      builds on the image: recipes sharing a remote base image repeat its
      pull rule, and every other target has no recipe. */
  lemma {:induction false} AllRulesPullRecipes(tree: FsNode, store: Store, order: seq<string>, url: string, t: string)
    requires Covers(order, store)
    requires AllRules(tree, store, order, url).Ok?
    ensures RecipesFor(AllRules(tree, store, order, url).value, t) == Pulls(store, order, url, t)
  {
    if order != [] {
      var m := order[0];
      AllRulesCons(tree, store, order, url);
      var base := BaseImageOf(store[m], url).value;
      var deps := FileDeps(tree, m, store[m].addPaths).value;
      AllRulesPullRecipes(tree, store, order[1..], url, t);
      GatherAppend(RulesFor(m, base, deps), AllRules(tree, store, order[1..], url).value, t);
      PullRuleOnlyForRemote(m, base, deps, t);
    }
  }

  lemma {:induction false} RenderAllAppend(a: seq<Rule>, b: seq<Rule>)
    ensures RenderAll(a + b) == RenderAll(a) + RenderAll(b)
  {
    if a == [] {
      assert a + b == b;
    } else {
      assert (a + b)[0] == a[0];
      assert (a + b)[1..] == a[1..] + b;
      RenderAllAppend(a[1..], b);
    }
  }

  lemma RenderPlain(t: string, prereqs: seq<string>)
    ensures RenderAll([Rule(t, prereqs, [], [])]) == t + ": " + Join(prereqs, " ") + "\n\n"
  {
    assert [Rule(t, prereqs, [], [])][1..] == [];
  }

  lemma RenderOrderOnly(t: string, dir: string)
    ensures RenderAll([Rule(t, [], [dir], [])]) == t + ": | " + dir + "\n\n"
  {
    assert [Rule(t, [], [dir], [])][1..] == [];
  }

  lemma RenderPull(remote: string, f: string)
    ensures RenderAll([PullRule(remote, f)]) == PullText(remote, f)
  {
    var r := PullRule(remote, f);
    assert [r][1..] == [];
    var lines := r.recipe;
    assert RecipeText(lines[2..]) == "\t" + lines[2] + "\n" by {
      assert lines[2..][1..] == [];
    }
    assert lines[1..][1..] == lines[2..];
    var x0, x1, x2 := "\t" + lines[0] + "\n", "\t" + lines[1] + "\n", "\t" + lines[2] + "\n";
    assert RecipeText(lines[1..]) == x1 + x2;
    assert RecipeText(lines) == x0 + (x1 + x2);
    assert Join([".pull-once"], " ") == ".pull-once";
    assert Join([".remote"], " ") == ".remote";
    var h := ".remote/" + f + ": " + ".pull-once" + (" " + "| " + ".remote") + "\n";
    assert Render(r) == h + (x0 + (x1 + x2)) + "\n";
    Concat4(h, x0, x1, x2, "\n");
    PullHeader(f);
    PullLines(remote, f);
    assert RenderAll([r]) == Render(r) + "";
  }

  lemma Concat4(h: string, a: string, b: string, c: string, d: string)
    ensures h + (a + (b + c)) + d == h + a + b + (c + d)
  {
  }

  lemma PullHeader(f: string)
    ensures ".remote/" + f + ": " + ".pull-once" + (" " + "| " + ".remote") + "\n" == ".remote/" + f + ": .pull-once | .remote\n"
  {
  }

  lemma PullLines(remote: string, f: string)
    ensures "\t" + ("docker pull " + remote) + "\n" == "\tdocker pull " + remote + "\n"
    ensures "\t" + ("@docker image inspect " + remote + " --format '{{.Id}}' > $(TMPDIR)/" + f) + "\n"
      == "\t@docker image inspect " + remote + " --format '{{.Id}}' > $(TMPDIR)/" + f + "\n"
    ensures "\t" + ("@diff $(TMPDIR)/" + f + " $@ \\\n\t  || mv $(TMPDIR)/" + f + " $@") + "\n" + "\n"
      == "\t@diff $(TMPDIR)/" + f + " $@ \\\n\t  || mv $(TMPDIR)/" + f + " $@\n\n"
  {
    InspectLine(remote, f);
    DiffLine(f);
  }

  lemma InspectLine(remote: string, f: string)
    ensures "\t" + ("@docker image inspect " + remote + " --format '{{.Id}}' > $(TMPDIR)/" + f) + "\n"
      == "\t@docker image inspect " + remote + " --format '{{.Id}}' > $(TMPDIR)/" + f + "\n"
  {
  }

  lemma DiffLine(f: string)
    ensures "\t" + ("@diff $(TMPDIR)/" + f + " $@ \\\n\t  || mv $(TMPDIR)/" + f + " $@") + "\n" + "\n"
      == "\t@diff $(TMPDIR)/" + f + " $@ \\\n\t  || mv $(TMPDIR)/" + f + " $@\n\n"
  {
  }

  /** The text of a pull rule, as the format string spells it. */
  function PullText(remote: string, f: string): string {
    (".remote/" + f + ": .pull-once | .remote\n")
    + ("\tdocker pull " + remote + "\n")
    + ("\t@docker image inspect " + remote + " --format '{{.Id}}' > $(TMPDIR)/" + f + "\n")
    + ("\t@diff $(TMPDIR)/" + f + " $@ \\\n\t  || mv $(TMPDIR)/" + f + " $@\n\n")
  }

  /** The text printed for the base image. */
  function BaseText(name: string, base: BaseImage): string {
    match base
    case LocalBuild(recipe) => ".build/" + name + ": .build/" + recipe + "\n\n"
    case RemotePull(remote, f) => (".build/" + name + ": .remote/" + f + "\n\n") + PullText(remote, f)
  }

  /** The text the emission loop prints for one recipe, written out as its
      format strings spell it. */
  function PrintedText(name: string, base: BaseImage, deps: seq<string>): string {
    BaseText(name, base)
    + ("build-all: build-" + name + "\n\n")
    + ("push-all: push-" + name + "\n\n")
    + (".build/" + name + ": | .build\n\n")
    + (".build/" + name + ": " + Join(deps, " ") + "\n\n")
  }

  lemma RenderSingle(t: string, p: string)
    ensures RenderAll([Rule(t, [p], [], [])]) == t + ": " + p + "\n\n"
  {
    RenderPlain(t, [p]);
  }

  lemma BaseLine(name: string, dir: string, x: string)
    ensures ".build/" + name + ": " + (dir + x) + "\n\n" == ".build/" + name + ": " + dir + x + "\n\n"
  {
  }

  lemma RenderBase(name: string, base: BaseImage)
    ensures RenderAll([Rule(".build/" + name, [BaseTarget(base)], [], [])] + PullRules(base)) == BaseText(name, base)
  {
    var r0 := Rule(".build/" + name, [BaseTarget(base)], [], []);
    RenderAllAppend([r0], PullRules(base));
    RenderSingle(".build/" + name, BaseTarget(base));
    match base {
      case RemotePull(remote, f) =>
        RenderPull(remote, f);
        BaseLine(name, ".remote/", f);
        assert ".build/" + name + ": " + ".remote/" + f + "\n\n" == ".build/" + name + ": .remote/" + f + "\n\n";
      case LocalBuild(recipe) =>
        assert PullRules(base) == [];
        assert [r0] + [] == [r0];
        BaseLine(name, ".build/", recipe);
        assert ".build/" + name + ": " + ".build/" + recipe + "\n\n" == ".build/" + name + ": .build/" + recipe + "\n\n";
    }
  }

  lemma AggregateLines(name: string)
    ensures "build-all" + ": " + ("build-" + name) + "\n\n" == "build-all: build-" + name + "\n\n"
    ensures "push-all" + ": " + ("push-" + name) + "\n\n" == "push-all: push-" + name + "\n\n"
    ensures ".build/" + name + ": | " + ".build" + "\n\n" == ".build/" + name + ": | .build\n\n"
  {
  }

  /** The rendered rules of a recipe are exactly the text the loop prints. */
  lemma RulesForText(name: string, base: BaseImage, deps: seq<string>)
    ensures RenderAll(RulesFor(name, base, deps)) == PrintedText(name, base, deps)
  {
    var b := ".build/" + name;
    var head := [Rule(b, [BaseTarget(base)], [], [])] + PullRules(base);
    var r2 := Rule("build-all", ["build-" + name], [], []);
    var r3 := Rule("push-all", ["push-" + name], [], []);
    var r4 := Rule(b, [], [".build"], []);
    var r5 := Rule(b, deps, [], []);
    assert RulesFor(name, base, deps) == head + [r2] + [r3] + [r4] + [r5];
    RenderBase(name, base);
    RenderSingle("build-all", "build-" + name);
    RenderSingle("push-all", "push-" + name);
    RenderOrderOnly(b, ".build");
    RenderPlain(b, deps);
    AggregateLines(name);
    RenderAllAppend(head, [r2]);
    RenderAllAppend(head + [r2], [r3]);
    RenderAllAppend(head + [r2] + [r3], [r4]);
    RenderAllAppend(head + [r2] + [r3] + [r4], [r5]);
  }

  /** The text the loop prints for the recipes of `order`, one after the
      other, each as its format strings spell it. */
  function PrintedAll(tree: FsNode, store: Store, order: seq<string>, url: string): string
    requires Covers(order, store)
  {
    if order == [] then ""
    else
      CoversTail(order, store);
      var n := order[0];
      var base := BaseImageOf(store[n], url);
      var deps := FileDeps(tree, n, store[n].addPaths);
      (if base.Ok? && deps.Ok? then PrintedText(n, base.value, deps.value) else "")
      + PrintedAll(tree, store, order[1..], url)
  }

  /** The rendered rules of all recipes are the loop's printed text, recipe
      by recipe in the given order. */
  lemma {:induction false} AllRulesText(tree: FsNode, store: Store, order: seq<string>, url: string)
    requires Covers(order, store)
    requires AllRules(tree, store, order, url).Ok?
    ensures RenderAll(AllRules(tree, store, order, url).value) == PrintedAll(tree, store, order, url)
  {
    if order != [] {
      var n := order[0];
      AllRulesCons(tree, store, order, url);
      var base := BaseImageOf(store[n], url).value;
      var deps := FileDeps(tree, n, store[n].addPaths).value;
      var rest := AllRules(tree, store, order[1..], url).value;
      RenderAllAppend(RulesFor(n, base, deps), rest);
      RulesForText(n, base, deps);
      AllRulesText(tree, store, order[1..], url);
    }
  }

  /** The whole output: a comment line, then every recipe's rules. */
  function Output(tree: FsNode, store: Store, order: seq<string>, url: string): Result<string>
    requires Covers(order, store)
  {
    var rs :- AllRules(tree, store, order, url);
    Ok(Header + RenderAll(rs))
  }

  /** The whole run: scan the tree for recipes, then emit every recipe's
      rules in the order the runtime ranges over the record map, which
      `iterate` stands for. */
  function Generate(tree: FsNode, rootName: string, url: string, parseRecipe: RecipeParser, parseRef: RefParser,
                    iterate: Store -> seq<string>): Result<string>
    requires forall s :: Enumerates(iterate(s), s)
  {
    var store :- ScanTree(tree, rootName, parseRecipe, parseRef);
    var order := iterate(store);
    assert Enumerates(order, store);
    Output(tree, store, order, url)
  }

  /** Every stored record's rules exist. */
  predicate EveryRecordEmits(tree: FsNode, store: Store, url: string) {
    forall n :: n in store ==> RecordRules(tree, n, store[n], url).Ok?
  }

  /** Over an enumeration of the store, the rules of all recipes exist
      exactly when every stored record's rules do. */
  lemma AllRulesOkOverStore(tree: FsNode, store: Store, order: seq<string>, url: string)
    requires Enumerates(order, store)
    ensures AllRules(tree, store, order, url).Ok? <==> EveryRecordEmits(tree, store, url)
  {
    AllRulesOk(tree, store, order, url);
    if AllRules(tree, store, order, url).Ok? {
      forall n | n in store
        ensures RecordRules(tree, n, store[n], url).Ok?
      {
        var i :| 0 <= i < |order| && order[i] == n;
      }
    }
  }

  /** The run succeeds exactly when every recipe found parses into a record
      and every stored record's rules exist; its text then starts with the
      comment line. */
  lemma GenerateSpec(tree: FsNode, rootName: string, url: string, parseRecipe: RecipeParser, parseRef: RefParser,
                     iterate: Store -> seq<string>)
    requires forall s :: Enumerates(iterate(s), s)
    ensures ScanTree(tree, rootName, parseRecipe, parseRef).Ok? <==>
      AllRecordsOk(RecipePaths(Visit(tree, []), rootName), parseRecipe, parseRef)
    ensures Generate(tree, rootName, url, parseRecipe, parseRef, iterate).Ok? <==>
      ScanTree(tree, rootName, parseRecipe, parseRef).Ok? && EveryRecordEmits(tree, ScanTree(tree, rootName, parseRecipe, parseRef).value, url)
    ensures Generate(tree, rootName, url, parseRecipe, parseRef, iterate).Ok? ==>
      HasPrefix(Generate(tree, rootName, url, parseRecipe, parseRef, iterate).value, Header)
    ensures ScanTree(tree, rootName, parseRecipe, parseRef).Ok? && Generate(tree, rootName, url, parseRecipe, parseRef, iterate).Ok? ==>
      var store := ScanTree(tree, rootName, parseRecipe, parseRef).value;
      Generate(tree, rootName, url, parseRecipe, parseRef, iterate).value == Header + PrintedAll(tree, store, iterate(store), url)
  {
    AddAllOk(map[], RecipePaths(Visit(tree, []), rootName), parseRecipe, parseRef);
    var scan := ScanTree(tree, rootName, parseRecipe, parseRef);
    if scan.Ok? {
      var store := scan.value;
      var order := iterate(store);
      assert Enumerates(order, store);
      AllRulesOkOverStore(tree, store, order, url);
      var rules := AllRules(tree, store, order, url);
      if rules.Ok? {
        assert Generate(tree, rootName, url, parseRecipe, parseRef, iterate) == Ok(Header + RenderAll(rules.value));
        AllRulesText(tree, store, order, url);
        assert (Header + RenderAll(rules.value))[..|Header|] == Header;
      }
    }
  }

  // ---------------------------------------------------------------------
  // The run as written

  /** The rules of all recipes, classifying base images as the source
      writes it. */
  function AllRulesAsWritten(tree: FsNode, store: Store, order: seq<string>, url: string): Result<seq<Rule>>
    requires Covers(order, store)
  {
    if order == [] then Ok([])
    else
      CoversTail(order, store);
      var here :- RecordRulesAsWritten(tree, order[0], store[order[0]], url);
      var rest :- AllRulesAsWritten(tree, store, order[1..], url);
      Ok(here + rest)
  }

  /** The whole run with `localFrom` as written. */
  function GenerateAsWritten(tree: FsNode, rootName: string, url: string, parseRecipe: RecipeParser, parseRef: RefParser,
                             iterate: Store -> seq<string>): Result<string>
    requires forall s :: Enumerates(iterate(s), s)
  {
    var store :- ScanTree(tree, rootName, parseRecipe, parseRef);
    var order := iterate(store);
    assert Enumerates(order, store);
    var rs :- AllRulesAsWritten(tree, store, order, url);
    Ok(Header + RenderAll(rs))
  }

  /** No recipe of `order` builds on a local image. */
  predicate NoneLocal(store: Store, order: seq<string>)
    requires Covers(order, store)
  {
    forall i :: 0 <= i < |order| ==> !IsLocal(store[order[i]])
  }

  lemma NoneLocalCons(store: Store, order: seq<string>)
    requires Covers(order, store) && order != []
    ensures Covers(order[1..], store)
    ensures NoneLocal(store, order) <==> !IsLocal(store[order[0]]) && NoneLocal(store, order[1..])
  {
    CoversTail(order, store);
    if !IsLocal(store[order[0]]) && NoneLocal(store, order[1..]) {
      forall i | 1 <= i < |order|
        ensures !IsLocal(store[order[i]])
      {
        assert order[i] == order[1..][i - 1];
      }
    }
    if NoneLocal(store, order) {
      forall i | 0 <= i < |order[1..]|
        ensures !IsLocal(store[order[1..][i]])
      {
        assert order[1..][i] == order[i + 1];
      }
    }
  }

  /** As written, emission fails as soon as one recipe builds on a local
      image, and it agrees with the corrected emission when none does. */
  lemma {:induction false} AllRulesAsWrittenSpec(tree: FsNode, store: Store, order: seq<string>, url: string)
    requires Covers(order, store)
    ensures AllRulesAsWritten(tree, store, order, url).Ok? ==> NoneLocal(store, order)
    ensures NoneLocal(store, order) ==> AllRulesAsWritten(tree, store, order, url) == AllRules(tree, store, order, url)
  {
    if order != [] {
      NoneLocalCons(store, order);
      AllRulesAsWrittenSpec(tree, store, order[1..], url);
      var n := order[0];
      assert !IsLocal(store[n]) ==>
        RecordRulesAsWritten(tree, n, store[n], url) == RecordRules(tree, n, store[n], url);
      assert IsLocal(store[n]) ==> RecordRulesAsWritten(tree, n, store[n], url).Fatal?;
    }
  }

  /** No stored recipe builds on a local image. */
  predicate NoLocalRecord(store: Store) {
    forall n :: n in store ==> !IsLocal(store[n])
  }

  /** As written, a run whose scanned store holds a recipe that builds on a
      local image fails; a run whose store holds none behaves as the
      corrected run. */
  lemma GenerateAsWrittenSpec(tree: FsNode, rootName: string, url: string, parseRecipe: RecipeParser, parseRef: RefParser,
                              iterate: Store -> seq<string>)
    requires forall s :: Enumerates(iterate(s), s)
    ensures GenerateAsWritten(tree, rootName, url, parseRecipe, parseRef, iterate).Ok? ==>
      ScanTree(tree, rootName, parseRecipe, parseRef).Ok? && NoLocalRecord(ScanTree(tree, rootName, parseRecipe, parseRef).value)
    ensures ScanTree(tree, rootName, parseRecipe, parseRef).Ok? && NoLocalRecord(ScanTree(tree, rootName, parseRecipe, parseRef).value) ==>
      GenerateAsWritten(tree, rootName, url, parseRecipe, parseRef, iterate) == Generate(tree, rootName, url, parseRecipe, parseRef, iterate)
  {
    var scan := ScanTree(tree, rootName, parseRecipe, parseRef);
    if scan.Ok? {
      var store := scan.value;
      var order := iterate(store);
      assert Enumerates(order, store);
      AllRulesAsWrittenSpec(tree, store, order, url);
      if NoneLocal(store, order) {
        forall n | n in store
          ensures !IsLocal(store[n])
        {
          var i :| 0 <= i < |order| && order[i] == n;
        }
      }
      if NoLocalRecord(store) {
        assert NoneLocal(store, order);
      }
    }
  }
}

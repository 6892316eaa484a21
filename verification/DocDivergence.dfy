/** When the incremental and the full build of docs/build_pdfs.py come apart: tools that show every
    difference, and the exact condition for none to exist. */
module DocDivergence {
  import opened Counting
  import opened Options
  import opened DocPaths
  import opened DocPublications
  import opened DocPlan
  import opened DocBuild
  import opened DocSteady
  import opened DocIncremental

  // ----- Trees some toolchain has brought up to date

  /** Every publication has its source, everything it writes, and a PDF that is not empty. */
  ghost predicate Present(tree: Tree, pubs: Publications) {
    forall t :: t in pubs ==> PresentOne(tree, pubs[t])
  }

  predicate PresentOne(tree: Tree, p: Publication) {
    && p.source in tree && Writes(p) <= tree.Keys
    && p.target in tree && (tree[p.target] != "" || (p.manifest == p.target && p.target != ""))
  }

  /** The source is there, or made by the assembler. */
  predicate BuildableOne(tree: Tree, p: Publication) { p.source in tree || p.source in Made(p) }

  ghost predicate Buildable(tree: Tree, pubs: Publications) {
    forall t :: t in pubs ==> BuildableOne(tree, pubs[t])
  }

  /** What the tools answer when all is as it was. */
  function OldPdf(before: Tree, p: Publication, mark: Content): Content {
    if p.target in before && before[p.target] != "" then before[p.target] else mark + "x"
  }

  /** Tools that give every publication of `b` back what the old tree has for it as long as they are
      shown what the old tree shows them, and a mark otherwise. */
  function Telltale(before: Tree, b: Publications, mark: Content): Toolchain {
    Toolchain(
      (p: Publication, shown: Tree) =>
        Some(if Among(p, b) && shown == Restrict(before, p.Inputs()) then Recalling(before, mark) else _ => mark),
      (p: Publication, shown: Tree) =>
        Some(if Among(p, b) && shown == Restrict(before, Reads(p)) then OldPdf(before, p, mark) else mark),
      (p: Publication, source: Content, pdf: Content) =>
        Some(if Among(p, b) && pdf == OldPdf(before, p, mark) && p.manifest in before then before[p.manifest]
             else mark))
  }

  function Recalling(before: Tree, mark: Content): Path -> Content { x => if x in before then before[x] else mark }

  // ----- What the tools leave, exactly

  ghost predicate Exact(before: Tree, tree: Tree, dirty: set<Path>) {
    forall x :: x in dirty <==> !Agree(tree, before, {x})
  }

  lemma DifferencesExact(before: Tree, after: Tree)
    ensures Exact(before, after, Differences(before, after))
  {
  }

  /** The same view is shown exactly when nothing in it is dirty. */
  lemma ViewExact(before: Tree, tree: Tree, dirty: set<Path>, paths: set<Path>)
    requires Exact(before, tree, dirty)
    ensures Restrict(tree, paths) == Restrict(before, paths) <==> paths !! dirty
  {
    if paths !! dirty {
      forall x | x in paths ensures Agree(tree, before, {x}) {
      }
      AgreeEverywhere(tree, before, paths);
      RestrictAgrees(tree, before, paths, paths);
    } else {
      var x :| x in paths && x in dirty;
      assert !Agree(tree, before, {x});
      assert (x in tree <==> x in Restrict(tree, paths)) && (x in before <==> x in Restrict(before, paths));
      assert x in tree ==> Restrict(tree, paths)[x] == tree[x];
      assert x in before ==> Restrict(before, paths)[x] == before[x];
    }
  }

  lemma AssembledExact(before: Tree, b: Publications, mark: Content, tree: Tree, p: Publication, dirty: set<Path>)
    requires Exact(before, tree, dirty) && mark !in before.Values && (Among(p, b) ==> PresentOne(before, p))
    ensures var assembled := Assembled(Telltale(before, b, mark), tree, p);
            assembled.Some? && Exact(before, assembled.value, AfterAssembly(dirty, p, Among(p, b)))
  {
    var assembled := Assembled(Telltale(before, b, mark), tree, p).value;
    AssembledFrame(Telltale(before, b, mark), tree, p);
    ViewExact(before, tree, dirty, p.Inputs());
    forall x ensures x in AfterAssembly(dirty, p, Among(p, b)) <==> !Agree(assembled, before, {x}) {
      if x in Made(p) {
        assert x in Writes(p);
        assert x in before ==> before[x] in before.Values;
      } else {
        assert Agree(assembled, tree, {x});
      }
    }
  }

  lemma RenderedOld(before: Tree, b: Publications, mark: Content, tree: Tree, p: Publication, dirty: set<Path>)
    requires Exact(before, tree, dirty) && mark !in before.Values && mark != "" && p.source in tree
    requires Among(p, b) && PresentOne(before, p) && Reads(p) !! dirty
    ensures var rendered := Rendered(Telltale(before, b, mark), tree, p);
            rendered.status == Done && Agree(rendered.tree, before, Rendering(p))
  {
    ViewExact(before, tree, dirty, Reads(p));
    assert p.target in Rendering(p) && (p.manifest != "" ==> p.manifest in Rendering(p));
  }

  lemma RenderedMarked(before: Tree, b: Publications, mark: Content, tree: Tree, p: Publication, dirty: set<Path>)
    requires Exact(before, tree, dirty) && mark !in before.Values && mark != "" && p.source in tree
    requires !(Among(p, b) && Reads(p) !! dirty)
    ensures var rendered := Rendered(Telltale(before, b, mark), tree, p);
            && rendered.status == Done
            && forall x :: x in Rendering(p) ==> x in rendered.tree && rendered.tree[x] == mark
  {
    ViewExact(before, tree, dirty, Reads(p));
    assert |mark + "x"| == |mark| + 1;
    assert p.target in before ==> before[p.target] in before.Values;
  }

  lemma RenderedExact(before: Tree, b: Publications, mark: Content, tree: Tree, p: Publication, dirty: set<Path>)
    requires Exact(before, tree, dirty) && mark !in before.Values && mark != "" && p.source in tree
    requires Among(p, b) ==> PresentOne(before, p)
    ensures var rendered := Rendered(Telltale(before, b, mark), tree, p);
            rendered.status == Done && Exact(before, rendered.tree, AfterRendering(dirty, p, Among(p, b)))
  {
    var rendered := Rendered(Telltale(before, b, mark), tree, p).tree;
    RenderedFrame(Telltale(before, b, mark), tree, p);
    if Among(p, b) && Reads(p) !! dirty {
      RenderedOld(before, b, mark, tree, p, dirty);
    } else {
      RenderedMarked(before, b, mark, tree, p, dirty);
    }
    forall x ensures x in AfterRendering(dirty, p, Among(p, b)) <==> !Agree(rendered, before, {x}) {
      if x in Rendering(p) {
        assert x in before ==> before[x] in before.Values;
      } else {
        assert Agree(rendered, tree, {x});
      }
    }
  }

  lemma SourceAssembled(tc: Toolchain, tree: Tree, p: Publication)
    requires BuildableOne(tree, p) && Assembled(tc, tree, p).Some?
    ensures p.source in Assembled(tc, tree, p).value
  {
    AssembledFrame(tc, tree, p);
    assert p.source !in Made(p) ==> Agree(Assembled(tc, tree, p).value, tree, {p.source});
  }

  lemma BuildExact(before: Tree, b: Publications, mark: Content, tree: Tree, p: Publication, dirty: set<Path>)
    requires Exact(before, tree, dirty) && mark !in before.Values && mark != "" && BuildableOne(tree, p)
    requires Among(p, b) ==> PresentOne(before, p)
    ensures var built := Build(Telltale(before, b, mark), tree, p);
            built.status == Done && Exact(before, built.tree, AfterBuild(dirty, p, Among(p, b)))
  {
    AssembledExact(before, b, mark, tree, p, dirty);
    SourceAssembled(Telltale(before, b, mark), tree, p);
    RenderedExact(before, b, mark, Assembled(Telltale(before, b, mark), tree, p).value, p,
                  AfterAssembly(dirty, p, Among(p, b)));
  }

  lemma TelltaleUpToDate(before: Tree, b: Publications, mark: Content, p: Publication)
    requires mark !in before.Values && mark != "" && Among(p, b) && PresentOne(before, p)
    ensures UpToDate(Telltale(before, b, mark), before, p)
  {
    BuildExact(before, b, mark, before, p, {});
    var built := Build(Telltale(before, b, mark), before, p).tree;
    assert AfterBuild({}, p, true) == {};
    forall x ensures Agree(built, before, {x}) {
      assert x !in AfterBuild({}, p, true);
    }
    SameTree(built, before);
  }

  lemma AllTelltale(before: Tree, b: Publications, mark: Content)
    requires mark !in before.Values && mark != "" && Present(before, b) && forall t :: t in b ==> b[t].target == t
    ensures AllUpToDate(Telltale(before, b, mark), before, b)
  {
    forall t | t in b ensures UpToDate(Telltale(before, b, mark), before, b[t]) {
      assert PresentOne(before, b[t]);
      TelltaleUpToDate(before, b, mark, b[t]);
    }
  }

  /** There is always a mark that occurs nowhere. */
  lemma {:induction false} Longer(contents: set<Content>) returns (mark: Content)
    ensures mark != "" && forall c :: c in contents ==> |c| < |mark|
    decreases |contents|
  {
    if contents == {} {
      mark := "x";
    } else {
      var c :| c in contents;
      mark := Longer(contents - {c});
      mark := mark + c;
    }
  }

  lemma FreshMark(before: Tree, after: Tree) returns (mark: Content)
    ensures mark != "" && mark !in before.Values && mark !in after.Values
  {
    mark := Longer(before.Values + after.Values);
  }

  /** Some toolchain brings the tree up to date exactly when everything is present. */
  lemma PresentIff(tree: Tree, pubs: Publications)
    requires forall t :: t in pubs ==> pubs[t].target == t
    ensures Present(tree, pubs) <==> exists tc :: AllUpToDate(tc, tree, pubs)
  {
    if Present(tree, pubs) {
      var mark := FreshMark(tree, tree);
      AllTelltale(tree, pubs, mark);
    }
    if tc :| AllUpToDate(tc, tree, pubs) {
      forall t | t in pubs ensures PresentOne(tree, pubs[t]) {
        UpToDatePresent(tc, tree, pubs[t]);
      }
    }
  }

  lemma UpToDatePresent(tc: Toolchain, tree: Tree, p: Publication)
    requires UpToDate(tc, tree, p)
    ensures PresentOne(tree, p)
  {
    UpToDateDelivers(tc, tree, p);
    var assembled := Assembled(tc, tree, p).value;
    AssembledFrame(tc, tree, p);
    assert p.source in assembled;
    assert p.source !in Made(p) ==> Agree(assembled, tree, {p.source});
  }

  // ----- The first unsteady publication tells

  lemma BuiltMarked(before: Tree, b: Publications, mark: Content, tree: Tree, p: Publication, dirty: set<Path>)
    requires Exact(before, tree, dirty) && mark !in before.Values && mark != "" && BuildableOne(tree, p)
    requires Among(p, b) ==> PresentOne(before, p)
    requires !(Among(p, b) && Reads(p) !! AfterAssembly(dirty, p, Among(p, b)))
    ensures var built := Build(Telltale(before, b, mark), tree, p).tree; p.target in built && built[p.target] == mark
  {
    AssembledExact(before, b, mark, tree, p, dirty);
    SourceAssembled(Telltale(before, b, mark), tree, p);
    RenderedMarked(before, b, mark, Assembled(Telltale(before, b, mark), tree, p).value, p,
                   AfterAssembly(dirty, p, Among(p, b)));
    assert p.target in Rendering(p);
  }

  /** A known publication that is shown nothing dirty leaves what it writes clean. */
  lemma CleansUp(dirty: set<Path>, p: Publication)
    requires Reads(p) !! AfterAssembly(dirty, p, true)
    ensures AfterBuild(dirty, p, true) == dirty - Writes(p)
    ensures Writes(p) !! dirty ==> Reads(p) !! dirty
  {
    forall x | x in p.Inputs() ensures x !in dirty {
      assert x in Reads(p) && x !in AfterAssembly(dirty, p, true);
    }
  }

  /** Building a publication that is unknown or meets something dirty changes a path it writes. */
  lemma Tells(before: Tree, b: Publications, mark: Content, tree: Tree, p: Publication, dirty: set<Path>)
    returns (y: Path)
    requires Exact(before, tree, dirty) && mark !in before.Values && mark != "" && BuildableOne(tree, p)
    requires Among(p, b) ==> PresentOne(before, p)
    requires p.target in tree ==> tree[p.target] != mark
    requires !(Among(p, b) && (Reads(p) + Writes(p)) !! dirty)
    ensures y in Writes(p) && (y == p.target || Among(p, b))
    ensures !Agree(Build(Telltale(before, b, mark), tree, p).tree, tree, {y})
  {
    if Among(p, b) && Reads(p) !! AfterAssembly(dirty, p, true) {
      CleansUp(dirty, p);
      y :| y in Writes(p) && y in dirty;
      BuildExact(before, b, mark, tree, p, dirty);
      assert y !in AfterBuild(dirty, p, true);
    } else {
      BuiltMarked(before, b, mark, tree, p, dirty);
      y := p.target;
    }
  }

  /** What the search for an unsteady publication needs of the rest of the run. */
  ghost predicate Tellable(before: Tree, b: Publications, mark: Content, tree: Tree, ps: seq<Publication>) {
    && mark !in before.Values && mark != ""
    && (forall i :: 0 <= i < |ps| ==> BuildableOne(tree, ps[i]) && (Among(ps[i], b) ==> PresentOne(before, ps[i])))
    && (forall i, j :: 0 <= i < j < |ps| ==> Writes(ps[i]) !! Writes(ps[j]))
    && (forall i, x :: 0 <= i < |ps| && x in Writes(ps[i]) && x in tree ==> tree[x] != mark)
  }

  lemma TellableRest(before: Tree, b: Publications, mark: Content, tree: Tree, ps: seq<Publication>, tc: Toolchain)
    requires Tellable(before, b, mark, tree, ps) && ps != [] && Build(tc, tree, ps[0]).status == Done
    ensures Tellable(before, b, mark, Build(tc, tree, ps[0]).tree, ps[1..])
    ensures Tellable(before, b, mark, tree, ps[1..])
  {
    var rest, built := ps[1..], Build(tc, tree, ps[0]).tree;
    assert forall i :: 0 <= i < |rest| ==> rest[i] == ps[i + 1];
    forall i | 0 <= i < |rest| ensures BuildableOne(built, rest[i]) {
      assert BuildableOne(tree, ps[i + 1]);
      BuildGrows(tc, tree, ps[0]);
    }
    forall i, x | 0 <= i < |rest| && x in Writes(rest[i]) && x in built ensures built[x] != mark {
      assert Writes(ps[0]) !! Writes(ps[i + 1]);
      BuildFrame(tc, tree, ps[0], x);
    }
  }

  lemma BuildGrows(tc: Toolchain, tree: Tree, p: Publication)
    ensures tree.Keys <= Build(tc, tree, p).tree.Keys
  {
  }

  lemma {:induction false} TouchedAvoid(ps: seq<Publication>, changed: set<Path>, y: Path)
    requires forall i :: 0 <= i < |ps| ==> y !in Writes(ps[i])
    ensures forall i :: 0 <= i < |TouchedOf(ps, changed)| ==> y !in Writes(TouchedOf(ps, changed)[i])
  {
    if ps != [] {
      TouchedAvoid(ps[1..], changed, y);
    }
  }

  /** Building the head or not shows in the end at a path no later publication writes. */
  lemma ShowsInTheEnd(tc: Toolchain, tree: Tree, ps: seq<Publication>, changed: set<Path>, y: Path)
    requires ps != [] && !Touched(ps[0], changed) && Build(tc, tree, ps[0]).status == Done
    requires forall i :: 0 < i < |ps| ==> y !in Writes(ps[i])
    requires !Agree(Build(tc, tree, ps[0]).tree, tree, {y})
    ensures !Agree(BuildAll(tc, tree, ps).tree, BuildAll(tc, tree, TouchedOf(ps, changed)).tree, {y})
  {
    BuildFirst(tc, tree, ps);
    TouchedFirst(ps, changed);
    BuildAllFrame(tc, Build(tc, tree, ps[0]).tree, ps[1..], y);
    TouchedAvoid(ps[1..], changed, y);
    BuildAllFrame(tc, tree, TouchedOf(ps[1..], changed), y);
  }

  lemma {:induction false} Diverge(before: Tree, b: Publications, mark: Content, tree: Tree, ps: seq<Publication>,
                                   changed: set<Path>, dirty: set<Path>)
    returns (p: Publication, y: Path)
    requires Exact(before, tree, dirty) && Tellable(before, b, mark, tree, ps) && !Steady(ps, b, changed, dirty)
    ensures p in ps && y in Writes(p) && (y == p.target || Among(p, b))
    ensures var tc := Telltale(before, b, mark);
            !Agree(BuildAll(tc, tree, ps).tree, BuildAll(tc, tree, TouchedOf(ps, changed)).tree, {y})
    decreases |ps|
  {
    var tc, head := Telltale(before, b, mark), ps[0];
    assert BuildableOne(tree, head);
    BuildExact(before, b, mark, tree, head, dirty);
    TellableRest(before, b, mark, tree, ps, tc);
    BuildFirst(tc, tree, ps);
    TouchedFirst(ps, changed);
    if Touched(head, changed) {
      BuildFirst(tc, tree, TouchedOf(ps, changed));
      var next := AfterBuild(dirty, head, Among(head, b));
      p, y := Diverge(before, b, mark, Build(tc, tree, head).tree, ps[1..], changed, next);
    } else if Among(head, b) && (Reads(head) + Writes(head)) !! dirty {
      TelltaleUpToDate(before, b, mark, head);
      SteadyHead(tc, before, tree, head, dirty);
      p, y := Diverge(before, b, mark, tree, ps[1..], changed, dirty);
    } else {
      p := head;
      assert p.target in Writes(p);
      y := Tells(before, b, mark, tree, head, dirty);
      assert forall i :: 0 < i < |ps| ==> Writes(ps[0]) !! Writes(ps[i]);
      ShowsInTheEnd(tc, tree, ps, changed, y);
    }
  }

  lemma SteadyHead(tc: Toolchain, before: Tree, tree: Tree, p: Publication, dirty: set<Path>)
    requires UpToDate(tc, before, p) && Exact(before, tree, dirty) && (Reads(p) + Writes(p)) !! dirty
    ensures Build(tc, tree, p) == Outcome(tree, Done)
  {
    CleanAgrees(before, tree, dirty, Reads(p) + Writes(p));
    UpToDateLocal(tc, before, tree, p);
  }

  // ----- Exactly when the builds agree

  lemma FullTellable(before: Tree, b: Publications, mark: Content, after: Tree, a: Publications)
    requires mark !in before.Values && mark !in after.Values && mark != ""
    requires Present(before, b) && Buildable(after, a) && DisjointWrites(a)
    ensures Tellable(before, b, mark, after, FullPlan(a).targets)
  {
    var keys, ps := SortedPaths(a.Keys), FullPlan(a).targets;
    FullIs(a);
    forall i | 0 <= i < |ps| ensures BuildableOne(after, ps[i]) && (Among(ps[i], b) ==> PresentOne(before, ps[i])) {
      assert ps[i] == a[keys[i]];
    }
    forall i, j | 0 <= i < j < |ps| ensures Writes(ps[i]) !! Writes(ps[j]) {
      assert ps[i] == a[keys[i]] && ps[j] == a[keys[j]] && keys[i] != keys[j];
    }
  }

  lemma TargetsOwned(b: Publications, p: Publication, y: Path)
    requires DisjointWrites(b) && Among(p, b) && y in Writes(p) && y in b && b[y].target == y
    ensures y == p.target
  {
    assert y in Writes(b[y]);
  }

  /** What an unsteady publication writes is not among the deletions. */
  lemma NotDeleted(config: Config, before: set<Path>, after: set<Path>, changed: set<Path>, p: Publication, y: Path)
    requires config.Valid() && DisjointWrites(PublicationsAt(config, before)) && Among(p, PublicationsAt(config, after))
    requires y in Writes(p) && (y == p.target || Among(p, PublicationsAt(config, before)))
    ensures y !in RangePlan(PublicationsAt(config, before), PublicationsAt(config, after), changed).deletions
  {
    var b := PublicationsAt(config, before);
    DeletionsAre(config, before, after, changed, y);
    if y in b && Among(p, b) {
      TargetsOwned(b, p, y);
    }
  }

  lemma DeletingKeeps(o: Outcome, gone: seq<Path>, y: Path)
    requires y !in gone
    ensures Agree(LessDeleted(o, gone).tree, o.tree, {y})
  {
  }

  lemma ExecuteDeletes(tc: Toolchain, tree: Tree, plan: Plan)
    ensures Execute(tc, tree, plan) == LessDeleted(BuildAll(tc, tree, plan.targets), plan.deletions)
  {
  }

  lemma DifferentEnds(tc: Toolchain, b: Publications, a: Publications, after: Tree, changed: set<Path>, y: Path)
    requires changed * INFRA_PATHS == {} && y !in RangePlan(b, a, changed).deletions
    requires var ps := FullPlan(a).targets;
             !Agree(BuildAll(tc, after, ps).tree, BuildAll(tc, after, TouchedOf(ps, changed)).tree, {y})
    ensures !SameResult(tc, b, a, after, changed)
  {
    var gone := RangePlan(b, a, changed).deletions;
    PlansInOrder(b, a, changed);
    FullPlanDeletesNothing(tc, after, a);
    ExecuteDeletes(tc, after, RangePlan(b, a, changed));
    DeletingKeeps(BuildAll(tc, after, FullPlan(a).targets), gone, y);
    DeletingKeeps(BuildAll(tc, after, TouchedOf(FullPlan(a).targets, changed)), gone, y);
  }

  lemma UnsteadyDiverges(config: Config, before: Tree, after: Tree, changed: set<Path>) returns (tc: Toolchain)
    requires config.Valid() && changed * INFRA_PATHS == {}
    requires DisjointWrites(PublicationsIn(config, before)) && DisjointWrites(PublicationsIn(config, after))
    requires Present(before, PublicationsIn(config, before)) && Buildable(after, PublicationsIn(config, after))
    requires !Steady(FullPlan(PublicationsIn(config, after)).targets, PublicationsIn(config, before), changed,
                     Differences(before, after))
    ensures AllUpToDate(tc, before, PublicationsIn(config, before))
    ensures !SameResult(tc, PublicationsIn(config, before), PublicationsIn(config, after), after, changed)
  {
    var b, a := PublicationsIn(config, before), PublicationsIn(config, after);
    var mark := FreshMark(before, after);
    tc := Telltale(before, b, mark);
    AllTelltale(before, b, mark);
    FullTellable(before, b, mark, after, a);
    DifferencesExact(before, after);
    var p, y := Diverge(before, b, mark, after, FullPlan(a).targets, changed, Differences(before, after));
    FullPlanTargets(a);
    NotDeleted(config, Tracked(before), Tracked(after), changed, p, y);
    DifferentEnds(tc, b, a, after, changed, y);
  }

  /** The incremental and the full build end alike under all tools that had brought the old tree up to
      date exactly when the range asks for a full build anyway, or the run is steady: at its turn no
      untouched publication is new or meets anything different from the old tree. */
  lemma IncrementalExactly(config: Config, before: Tree, after: Tree, changed: set<Path>)
    requires config.Valid()
    requires DisjointWrites(PublicationsIn(config, before)) && DisjointWrites(PublicationsIn(config, after))
    requires Present(before, PublicationsIn(config, before)) && Buildable(after, PublicationsIn(config, after))
    ensures (forall tc :: AllUpToDate(tc, before, PublicationsIn(config, before)) ==>
               SameResult(tc, PublicationsIn(config, before), PublicationsIn(config, after), after, changed))
            <==> changed * INFRA_PATHS != {}
                 || Steady(FullPlan(PublicationsIn(config, after)).targets, PublicationsIn(config, before), changed,
                           Differences(before, after))
  {
    var b, a := PublicationsIn(config, before), PublicationsIn(config, after);
    if changed * INFRA_PATHS != {} || Steady(FullPlan(a).targets, b, changed, Differences(before, after)) {
      forall tc | AllUpToDate(tc, before, b) ensures SameResult(tc, b, a, after, changed) {
        IncrementalEqualsFull(tc, config, before, after, changed);
      }
    } else {
      var tc := UnsteadyDiverges(config, before, after, changed);
    }
  }

  // ----- Runs in a good order

  /** Every untouched publication was published before, is the same, and what it writes is the same in
      both trees. */
  ghost predicate UntouchedKept(b: Publications, a: Publications, before: Tree, after: Tree, changed: set<Path>) {
    forall t :: t in a && !Touched(a[t], changed) ==> Among(a[t], b) && Agree(after, before, Writes(a[t]))
  }

  lemma {:induction false} OrderedSteadyUndisturbed(ps: seq<Publication>, b: Publications, changed: set<Path>,
                                                    dirty: set<Path>)
    requires Ordered(ps, changed) && Steady(ps, b, changed, dirty)
    ensures Undisturbed(ps, b, changed, dirty)
    decreases |ps|
  {
    if ps != [] {
      var rest := ps[1..];
      assert forall i :: 0 <= i < |rest| ==> rest[i] == ps[i + 1];
      var next := if Touched(ps[0], changed) then AfterBuild(dirty, ps[0], Among(ps[0], b)) else dirty;
      assert dirty <= next + if Touched(ps[0], changed) then Writes(ps[0]) else {};
      OrderedSteadyUndisturbed(rest, b, changed, next);
      forall j | 0 <= j < |ps| && !Touched(ps[j], changed)
        ensures Among(ps[j], b) && (Reads(ps[j]) + Writes(ps[j])) !! dirty
      {
        assert j > 0 ==> ps[j] == rest[j - 1] && (Reads(rest[j - 1]) + Writes(rest[j - 1])) !! next;
      }
    }
  }

  lemma AgreeOutside(before: Tree, after: Tree, paths: set<Path>)
    ensures Agree(after, before, paths) <==> paths !! Differences(before, after)
  {
  }

  lemma KeptUndisturbed(b: Publications, a: Publications, before: Tree, after: Tree, changed: set<Path>)
    requires Covers(changed, before, after) && UntouchedKept(b, a, before, after, changed)
    ensures Undisturbed(FullPlan(a).targets, b, changed, Differences(before, after))
  {
    var ps, dirty := FullPlan(a).targets, Differences(before, after);
    CoversDifferences(changed, before, after);
    FullPlanTargets(a);
    forall j | 0 <= j < |ps| && !Touched(ps[j], changed)
      ensures Among(ps[j], b) && (Reads(ps[j]) + Writes(ps[j])) !! dirty
    {
      assert ps[j] in ps;
      var t :| t in a && a[t] == ps[j];
      AgreeOutside(before, after, Writes(a[t]));
    }
  }

  lemma UndisturbedKept(b: Publications, a: Publications, before: Tree, after: Tree, changed: set<Path>)
    requires Undisturbed(FullPlan(a).targets, b, changed, Differences(before, after))
    ensures UntouchedKept(b, a, before, after, changed)
  {
    forall t | t in a && !Touched(a[t], changed) ensures Among(a[t], b) && Agree(after, before, Writes(a[t])) {
      var i := FullIndex(a, t);
      AgreeOutside(before, after, Writes(a[t]));
    }
  }

  lemma OrderedSteadyIff(b: Publications, a: Publications, before: Tree, after: Tree, changed: set<Path>)
    requires Covers(changed, before, after) && Ordered(FullPlan(a).targets, changed)
    ensures Steady(FullPlan(a).targets, b, changed, Differences(before, after))
            <==> UntouchedKept(b, a, before, after, changed)
  {
    var ps, dirty := FullPlan(a).targets, Differences(before, after);
    if Steady(ps, b, changed, dirty) {
      OrderedSteadyUndisturbed(ps, b, changed, dirty);
      UndisturbedKept(b, a, before, after, changed);
    } else if UntouchedKept(b, a, before, after, changed) {
      KeptUndisturbed(b, a, before, after, changed);
      OrderedIsSteady(ps, b, changed, dirty);
    }
  }

  /** Where no touched publication writes what a later untouched one reads or writes, the builds agree
      under all tools exactly when the range asks for a full build anyway or keeps the untouched ones. */
  lemma OrderedExactly(config: Config, before: Tree, after: Tree, changed: set<Path>)
    requires config.Valid() && Covers(changed, before, after)
    requires DisjointWrites(PublicationsIn(config, before)) && DisjointWrites(PublicationsIn(config, after))
    requires Present(before, PublicationsIn(config, before)) && Buildable(after, PublicationsIn(config, after))
    requires Ordered(FullPlan(PublicationsIn(config, after)).targets, changed)
    ensures (forall tc :: AllUpToDate(tc, before, PublicationsIn(config, before)) ==>
               SameResult(tc, PublicationsIn(config, before), PublicationsIn(config, after), after, changed))
            <==> changed * INFRA_PATHS != {}
                 || UntouchedKept(PublicationsIn(config, before), PublicationsIn(config, after), before, after, changed)
  {
    IncrementalExactly(config, before, after, changed);
    OrderedSteadyIff(PublicationsIn(config, before), PublicationsIn(config, after), before, after, changed);
  }

  // ----- Ranges that change inputs only

  /** The outputs of p are left alone, and its assembler makes or is shown its source. */
  predicate PlainOne(p: Publication, changed: set<Path>) {
    Writes(p) !! changed && (p.source in p.Inputs() || p.source in Made(p))
  }

  /** The range differs exactly in `changed` and changes no output, and no publication has a source
      that its assembler neither makes nor is shown. */
  ghost predicate Plain(a: Publications, before: Tree, after: Tree, changed: set<Path>) {
    && changed == Differences(before, after)
    && forall t :: t in a ==> PlainOne(a[t], changed)
  }

  /** A touched publication whose outputs the range left alone makes all of them dirty. */
  lemma TouchedSoils(p: Publication, known: bool, changed: set<Path>, dirty: set<Path>)
    requires Touched(p, changed) && changed <= dirty && PlainOne(p, changed)
    ensures AfterBuild(dirty, p, known) == dirty + Writes(p)
  {
    var x :| x in p.Inputs() && x in dirty;
    assert x in Reads(p) && x in AfterAssembly(dirty, p, known);
  }

  lemma {:induction false} SteadyIsOrdered(ps: seq<Publication>, b: Publications, changed: set<Path>, dirty: set<Path>)
    requires Steady(ps, b, changed, dirty) && changed <= dirty
    requires forall i :: 0 <= i < |ps| ==> PlainOne(ps[i], changed)
    ensures Undisturbed(ps, b, changed, dirty) && Ordered(ps, changed)
    decreases |ps|
  {
    if ps != [] {
      var rest := ps[1..];
      assert forall i :: 0 <= i < |rest| ==> rest[i] == ps[i + 1];
      assert PlainOne(ps[0], changed);
      var next := if Touched(ps[0], changed) then AfterBuild(dirty, ps[0], Among(ps[0], b)) else dirty;
      if Touched(ps[0], changed) {
        TouchedSoils(ps[0], Among(ps[0], b), changed, dirty);
      }
      SteadyIsOrdered(rest, b, changed, next);
      forall j | 0 <= j < |ps| && !Touched(ps[j], changed)
        ensures Among(ps[j], b) && (Reads(ps[j]) + Writes(ps[j])) !! dirty
      {
        assert j > 0 ==> ps[j] == rest[j - 1] && (Reads(rest[j - 1]) + Writes(rest[j - 1])) !! next;
      }
      forall i, j | 0 <= i < j < |ps| && Touched(ps[i], changed) && !Touched(ps[j], changed)
        ensures Writes(ps[i]) !! Reads(ps[j]) + Writes(ps[j])
      {
        assert ps[j] == rest[j - 1] && (Reads(rest[j - 1]) + Writes(rest[j - 1])) !! next;
        assert i > 0 ==> ps[i] == rest[i - 1];
      }
    }
  }

  lemma PlainCovers(a: Publications, before: Tree, after: Tree, changed: set<Path>)
    requires Plain(a, before, after, changed)
    ensures Covers(changed, before, after) && OutputsStay(a, changed)
  {
    DifferencesClean(before, after);
  }

  lemma SteadyKeepsSources(config: Config, before: Tree, after: Tree, changed: set<Path>, t: Path)
    requires Covers(changed, before, after) && OutputsStay(PublicationsIn(config, after), changed)
    requires Undisturbed(FullPlan(PublicationsIn(config, after)).targets, PublicationsIn(config, before),
                         changed, changed)
    ensures !TakenOver(config, before, after, changed, t)
  {
    var a := PublicationsIn(config, after);
    if t in a && !Touched(a[t], changed) {
      var i := FullIndex(a, t);
      UntouchedAmong(config, before, after, changed, t);
    }
  }

  lemma FullIs(a: Publications)
    ensures FullPlan(a).targets == At(a, SortedPaths(a.Keys))
  {
    PayloadTargets("full-explicit", a, {}, [], map[]);
  }

  /** q is the publication of a target other than t. */
  ghost predicate Other(a: Publications, t: Path, q: Publication) {
    exists s :: s in a && s != t && a[s] == q
  }

  lemma IndexAt(a: Publications, keys: seq<Path>, t: Path) returns (i: nat)
    requires (forall k :: k in keys ==> k in a) && Ascending(AtMost, keys) && t in keys
    ensures i < |keys| && At(a, keys)[i] == a[t]
    ensures forall j :: 0 <= j < |keys| && j != i ==> Other(a, t, At(a, keys)[j])
  {
    i :| 0 <= i < |keys| && keys[i] == t;
    forall j | 0 <= j < |keys| && j != i ensures Other(a, t, At(a, keys)[j]) {
      assert keys[j] in keys && keys[j] != t;
    }
  }

  lemma FullIndex(a: Publications, t: Path) returns (i: nat)
    requires t in a
    ensures i < |FullPlan(a).targets| && FullPlan(a).targets[i] == a[t]
    ensures forall j :: 0 <= j < |FullPlan(a).targets| && j != i ==> Other(a, t, FullPlan(a).targets[j])
  {
    FullIs(a);
    i := IndexAt(a, SortedPaths(a.Keys), t);
  }

  lemma PlainEach(a: Publications, before: Tree, after: Tree, changed: set<Path>)
    requires Plain(a, before, after, changed)
    ensures forall i :: 0 <= i < |FullPlan(a).targets| ==> PlainOne(FullPlan(a).targets[i], changed)
  {
    FullIs(a);
    forall i | 0 <= i < |FullPlan(a).targets| ensures PlainOne(FullPlan(a).targets[i], changed) {
      assert FullPlan(a).targets[i] == a[SortedPaths(a.Keys)[i]];
    }
  }

  lemma PlainSteadyOrdered(config: Config, before: Tree, after: Tree, changed: set<Path>)
    requires Plain(PublicationsIn(config, after), before, after, changed)
    requires Steady(FullPlan(PublicationsIn(config, after)).targets, PublicationsIn(config, before), changed, changed)
    ensures SourcesStay(config, before, after, changed)
    ensures Ordered(FullPlan(PublicationsIn(config, after)).targets, changed)
  {
    var b, a := PublicationsIn(config, before), PublicationsIn(config, after);
    PlainCovers(a, before, after, changed);
    PlainEach(a, before, after, changed);
    SteadyIsOrdered(FullPlan(a).targets, b, changed, changed);
    forall t ensures !TakenOver(config, before, after, changed, t) {
      SteadyKeepsSources(config, before, after, changed, t);
    }
  }

  lemma PlainIsSteady(config: Config, before: Tree, after: Tree, changed: set<Path>)
    requires Plain(PublicationsIn(config, after), before, after, changed)
    ensures Steady(FullPlan(PublicationsIn(config, after)).targets, PublicationsIn(config, before), changed, changed)
            <==> SourcesStay(config, before, after, changed)
                 && Ordered(FullPlan(PublicationsIn(config, after)).targets, changed)
  {
    var b, a := PublicationsIn(config, before), PublicationsIn(config, after);
    PlainCovers(a, before, after, changed);
    if Steady(FullPlan(a).targets, b, changed, changed) {
      PlainSteadyOrdered(config, before, after, changed);
    } else if SourcesStay(config, before, after, changed) && Ordered(FullPlan(a).targets, changed) {
      TidyIsSteady(config, before, after, changed);
    }
  }

  /** For ranges that change inputs only there are two ways to come apart: an untouched publication
      takes over a target whose old source is gone, or a touched one writes what a later untouched one
      reads or writes. */
  lemma PlainExactly(config: Config, before: Tree, after: Tree, changed: set<Path>)
    requires config.Valid() && Plain(PublicationsIn(config, after), before, after, changed)
    requires DisjointWrites(PublicationsIn(config, before)) && DisjointWrites(PublicationsIn(config, after))
    requires Present(before, PublicationsIn(config, before)) && Buildable(after, PublicationsIn(config, after))
    ensures (forall tc :: AllUpToDate(tc, before, PublicationsIn(config, before)) ==>
               SameResult(tc, PublicationsIn(config, before), PublicationsIn(config, after), after, changed))
            <==> changed * INFRA_PATHS != {}
                 || (SourcesStay(config, before, after, changed)
                     && Ordered(FullPlan(PublicationsIn(config, after)).targets, changed))
  {
    IncrementalExactly(config, before, after, changed);
    PlainIsSteady(config, before, after, changed);
  }

  // ----- An untouched publication that is new, or not the old one

  lemma TelltaleStep(before: Tree, b: Publications, mark: Content, tree: Tree, p: Publication)
    requires mark != "" && BuildableOne(tree, p)
    ensures Build(Telltale(before, b, mark), tree, p).status == Done
  {
    SourceAssembled(Telltale(before, b, mark), tree, p);
  }

  ghost predicate AllBuildable(tree: Tree, ps: seq<Publication>) {
    forall i :: 0 <= i < |ps| ==> BuildableOne(tree, ps[i])
  }

  lemma BuildableRest(tc: Toolchain, tree: Tree, ps: seq<Publication>)
    requires ps != [] && AllBuildable(tree, ps)
    ensures AllBuildable(Build(tc, tree, ps[0]).tree, ps[1..])
  {
    BuildGrows(tc, tree, ps[0]);
    forall i | 0 <= i < |ps[1..]| ensures BuildableOne(Build(tc, tree, ps[0]).tree, ps[1..][i]) {
      assert BuildableOne(tree, ps[i + 1]);
    }
  }

  lemma {:induction false} TelltaleRun(before: Tree, b: Publications, mark: Content, tree: Tree, ps: seq<Publication>)
    requires mark != "" && AllBuildable(tree, ps)
    ensures BuildAll(Telltale(before, b, mark), tree, ps).status == Done
    decreases |ps|
  {
    if ps != [] {
      var tc := Telltale(before, b, mark);
      TelltaleStep(before, b, mark, tree, ps[0]);
      BuildableRest(tc, tree, ps);
      TelltaleRun(before, b, mark, Build(tc, tree, ps[0]).tree, ps[1..]);
      BuildFirst(tc, tree, ps);
    }
  }

  lemma MarkStays(before: Tree, b: Publications, mark: Content, tree: Tree, ps: seq<Publication>)
    requires mark != "" && mark !in before.Values && ps != [] && !Among(ps[0], b) && BuildableOne(tree, ps[0])
    requires forall j :: 0 < j < |ps| ==> ps[0].target !in Writes(ps[j])
    ensures var done := BuildAll(Telltale(before, b, mark), tree, ps).tree;
            ps[0].target in done && done[ps[0].target] == mark
  {
    var tc := Telltale(before, b, mark);
    DifferencesExact(before, tree);
    TelltaleStep(before, b, mark, tree, ps[0]);
    BuiltMarked(before, b, mark, tree, ps[0], Differences(before, tree));
    BuildFirst(tc, tree, ps);
    BuildAllFrame(tc, Build(tc, tree, ps[0]).tree, ps[1..], ps[0].target);
  }

  lemma {:induction false} TelltaleMarks(before: Tree, b: Publications, mark: Content, tree: Tree, ps: seq<Publication>,
                                         i: nat)
    requires mark != "" && mark !in before.Values && i < |ps| && !Among(ps[i], b) && AllBuildable(tree, ps)
    requires forall j :: i < j < |ps| ==> ps[i].target !in Writes(ps[j])
    ensures var done := BuildAll(Telltale(before, b, mark), tree, ps).tree;
            ps[i].target in done && done[ps[i].target] == mark
    decreases |ps|
  {
    if i == 0 {
      MarkStays(before, b, mark, tree, ps);
    } else {
      var tc := Telltale(before, b, mark);
      TelltaleStep(before, b, mark, tree, ps[0]);
      BuildableRest(tc, tree, ps);
      TelltaleMarks(before, b, mark, Build(tc, tree, ps[0]).tree, ps[1..], i - 1);
      BuildFirst(tc, tree, ps);
    }
  }

  lemma FullBuildable(after: Tree, a: Publications)
    requires Buildable(after, a)
    ensures AllBuildable(after, FullPlan(a).targets)
  {
    FullPlanTargets(a);
  }

  lemma FullMarks(before: Tree, b: Publications, mark: Content, after: Tree, a: Publications, t: Path)
    requires mark != "" && mark !in before.Values && Buildable(after, a) && DisjointWrites(a)
    requires t in a && a[t].target == t && !Among(a[t], b)
    ensures var full := Execute(Telltale(before, b, mark), after, FullPlan(a));
            full.status == Done && t in full.tree && full.tree[t] == mark
  {
    var ps := FullPlan(a).targets;
    FullPlanDeletesNothing(Telltale(before, b, mark), after, a);
    FullBuildable(after, a);
    var i := FullIndex(a, t);
    forall j | i < j < |ps| ensures t !in Writes(ps[j]) {
      assert Other(a, t, ps[j]);
      var s :| s in a && s != t && a[s] == ps[j];
      assert t in Writes(a[t]) && Writes(a[s]) !! Writes(a[t]);
    }
    TelltaleRun(before, b, mark, after, ps);
    TelltaleMarks(before, b, mark, after, ps, i);
  }

  lemma IncrementalKeeps(before: Tree, b: Publications, mark: Content, after: Tree, a: Publications, changed: set<Path>,
                         t: Path)
    requires changed * INFRA_PATHS == {} && mark != "" && Buildable(after, a) && DisjointWrites(a)
    requires t in a && a[t].target == t && !Touched(a[t], changed)
    ensures var built := BuildAll(Telltale(before, b, mark), after, RangePlan(b, a, changed).targets);
            built.status == Done && Agree(built.tree, after, {t})
  {
    var targets := RangePlan(b, a, changed).targets;
    SelectedTargets(b, a, changed);
    forall i | 0 <= i < |targets| ensures BuildableOne(after, targets[i]) && t !in Writes(targets[i]) {
      assert targets[i] in targets;
      var u :| u in a && a[u] == targets[i] && Touched(targets[i], changed);
      assert t in Writes(a[t]) && Writes(a[u]) !! Writes(a[t]);
    }
    TelltaleRun(before, b, mark, after, targets);
    BuildAllFrame(Telltale(before, b, mark), after, targets, t);
  }

  /** An untouched publication that is new or not the old one of its target: there are tools under which
      everything was up to date and both builds succeed, the incremental one leaving the PDF as it is
      in the new tree, or missing, and the full one another. */
  lemma UnknownDiverges(config: Config, before: Tree, after: Tree, changed: set<Path>, t: Path) returns (tc: Toolchain)
    requires config.Valid() && changed * INFRA_PATHS == {} && DisjointWrites(PublicationsIn(config, after))
    requires Present(before, PublicationsIn(config, before)) && Buildable(after, PublicationsIn(config, after))
    requires t in PublicationsIn(config, after) && !Touched(PublicationsIn(config, after)[t], changed)
    requires !Among(PublicationsIn(config, after)[t], PublicationsIn(config, before))
    ensures AllUpToDate(tc, before, PublicationsIn(config, before))
    ensures var b, a := PublicationsIn(config, before), PublicationsIn(config, after);
            var incremental, full := Execute(tc, after, RangePlan(b, a, changed)), Execute(tc, after, FullPlan(a));
            && incremental.status == Done && full.status == Done
            && Agree(incremental.tree, after, {t}) && t in full.tree && !Agree(full.tree, after, {t})
  {
    var b, a := PublicationsIn(config, before), PublicationsIn(config, after);
    var mark := FreshMark(before, after);
    tc := Telltale(before, b, mark);
    AllTelltale(before, b, mark);
    FullMarks(before, b, mark, after, a, t);
    IncrementalKeeps(before, b, mark, after, a, changed, t);
    DeletionsAre(config, Tracked(before), Tracked(after), changed, t);
    assert t in after ==> after[t] in after.Values;
  }

  /** In particular a target that is taken over. */
  lemma TakenOverIsUnknown(config: Config, before: Tree, after: Tree, changed: set<Path>, t: Path)
    requires Covers(changed, before, after) && TakenOver(config, before, after, changed, t)
    ensures !Among(PublicationsIn(config, after)[t], PublicationsIn(config, before))
  {
    UnchangedTracked(changed, before, after, PublicationsIn(config, after)[t].source);
  }
}

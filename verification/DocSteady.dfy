/** When leaving untouched publications out of a run of docs/build_pdfs.py makes no difference: the
    paths that may differ from an old, up-to-date tree are followed through the run. */
module DocSteady {
  import opened Options
  import opened DocPaths
  import opened DocPublications
  import opened DocPlan
  import opened DocBuild

  ghost predicate AllUpToDate(tc: Toolchain, tree: Tree, pubs: Publications) {
    forall t :: t in pubs ==> UpToDate(tc, tree, pubs[t])
  }

  predicate Among(p: Publication, pubs: Publications) { p.target in pubs && pubs[p.target] == p }

  /** The publications an incremental plan keeps, in their order. */
  function TouchedOf(ps: seq<Publication>, changed: set<Path>): seq<Publication> {
    if ps == [] then []
    else (if Touched(ps[0], changed) then [ps[0]] else []) + TouchedOf(ps[1..], changed)
  }

  // ----- Which paths may differ from the old tree

  /** An assembler that was known and is shown nothing dirty makes what it made before. */
  function AfterAssembly(dirty: set<Path>, p: Publication, known: bool): set<Path> {
    if known && p.Inputs() !! dirty then dirty - Made(p) else dirty + Made(p)
  }

  function AfterRendering(dirty: set<Path>, p: Publication, known: bool): set<Path> {
    if known && Reads(p) !! dirty then dirty - Rendering(p) else dirty + Rendering(p)
  }

  function AfterBuild(dirty: set<Path>, p: Publication, known: bool): set<Path> {
    AfterRendering(AfterAssembly(dirty, p, known), p, known)
  }

  /** At its turn every untouched publication is one of the old ones, and nothing it reads or writes
      is dirty; the touched ones before it have been built. */
  predicate Steady(ps: seq<Publication>, b: Publications, changed: set<Path>, dirty: set<Path>)
    decreases |ps|
  {
    ps == []
    || if Touched(ps[0], changed) then Steady(ps[1..], b, changed, AfterBuild(dirty, ps[0], Among(ps[0], b)))
       else Among(ps[0], b) && (Reads(ps[0]) + Writes(ps[0])) !! dirty && Steady(ps[1..], b, changed, dirty)
  }

  function Differences(before: Tree, after: Tree): set<Path> {
    set x | x in before.Keys + after.Keys && (x !in before || x !in after || before[x] != after[x])
  }

  /** Outside `dirty` the trees agree. */
  ghost predicate Clean(before: Tree, tree: Tree, dirty: set<Path>) {
    forall x :: x !in dirty ==> Agree(tree, before, {x})
  }

  lemma DifferencesClean(before: Tree, after: Tree)
    ensures Clean(before, after, Differences(before, after))
  {
  }

  lemma CleanAgrees(before: Tree, tree: Tree, dirty: set<Path>, paths: set<Path>)
    requires Clean(before, tree, dirty) && paths !! dirty
    ensures Agree(tree, before, paths)
  {
    AgreeEverywhere(tree, before, paths);
  }

  // ----- A known publication, built again on a tree that is partly dirty

  lemma AssembledClean(tc: Toolchain, before: Tree, tree: Tree, p: Publication, dirty: set<Path>)
    requires Clean(before, tree, dirty)
    requires Assembled(tc, before, p).Some? && Assembled(tc, tree, p).Some?
    ensures Clean(Assembled(tc, before, p).value, Assembled(tc, tree, p).value, AfterAssembly(dirty, p, true))
  {
    var first, again := Assembled(tc, before, p).value, Assembled(tc, tree, p).value;
    AssembledFrame(tc, before, p);
    AssembledFrame(tc, tree, p);
    forall x | x !in AfterAssembly(dirty, p, true) ensures Agree(again, first, {x}) {
      if x in Made(p) {
        CleanAgrees(before, tree, dirty, p.Inputs());
        RestrictAgrees(tree, before, p.Inputs(), p.Inputs());
      } else {
        assert Agree(tree, before, {x}) && Agree(again, tree, {x}) && Agree(first, before, {x});
      }
    }
  }

  lemma RenderedClean(tc: Toolchain, before: Tree, tree: Tree, p: Publication, dirty: set<Path>)
    requires Clean(before, tree, dirty)
    requires Rendered(tc, before, p).status == Done && Rendered(tc, tree, p).status == Done
    ensures Clean(Rendered(tc, before, p).tree, Rendered(tc, tree, p).tree, AfterRendering(dirty, p, true))
  {
    var first, again := Rendered(tc, before, p).tree, Rendered(tc, tree, p).tree;
    RenderedFrame(tc, before, p);
    RenderedFrame(tc, tree, p);
    forall x | x !in AfterRendering(dirty, p, true) ensures Agree(again, first, {x}) {
      if x in Rendering(p) {
        CleanAgrees(before, tree, dirty, Reads(p));
        RenderedTwice(tc, before, tree, p);
      } else {
        assert Agree(tree, before, {x}) && Agree(again, tree, {x}) && Agree(first, before, {x});
      }
    }
  }

  lemma BuildClean(tc: Toolchain, before: Tree, tree: Tree, p: Publication, dirty: set<Path>, known: bool)
    requires Clean(before, tree, dirty) && (known ==> UpToDate(tc, before, p))
    requires Build(tc, tree, p).status == Done
    ensures Clean(before, Build(tc, tree, p).tree, AfterBuild(dirty, p, known))
  {
    if known {
      AssembledClean(tc, before, tree, p, dirty);
      RenderedClean(tc, Assembled(tc, before, p).value, Assembled(tc, tree, p).value, p, AfterAssembly(dirty, p, true));
    } else {
      forall x | x !in AfterBuild(dirty, p, known) ensures Agree(Build(tc, tree, p).tree, before, {x}) {
        BuildFrame(tc, tree, p, x);
        assert Agree(tree, before, {x});
      }
    }
  }

  lemma CleanIsUpToDate(tc: Toolchain, before: Tree, b: Publications, tree: Tree, p: Publication, dirty: set<Path>)
    requires AllUpToDate(tc, before, b) && Clean(before, tree, dirty)
    requires Among(p, b) && (Reads(p) + Writes(p)) !! dirty
    ensures Build(tc, tree, p) == Outcome(tree, Done)
  {
    CleanAgrees(before, tree, dirty, Reads(p) + Writes(p));
    UpToDateLocal(tc, before, tree, p);
  }

  lemma BuildFirst(tc: Toolchain, tree: Tree, ps: seq<Publication>)
    requires ps != []
    ensures var built := Build(tc, tree, ps[0]);
            BuildAll(tc, tree, ps) == if built.status == Done then BuildAll(tc, built.tree, ps[1..]) else built
  {
  }

  lemma TouchedFirst(ps: seq<Publication>, changed: set<Path>)
    requires ps != []
    ensures !Touched(ps[0], changed) ==> TouchedOf(ps, changed) == TouchedOf(ps[1..], changed)
    ensures Touched(ps[0], changed) ==>
              && TouchedOf(ps, changed) != [] && TouchedOf(ps, changed)[0] == ps[0]
              && TouchedOf(ps, changed)[1..] == TouchedOf(ps[1..], changed)
  {
  }

  /** If all publications of the old tree were up to date and the run is steady, building only the
      touched ones has the same outcome, failures included. */
  lemma {:induction false} SteadySame(tc: Toolchain, before: Tree, b: Publications, tree: Tree, ps: seq<Publication>,
                                      changed: set<Path>, dirty: set<Path>)
    requires AllUpToDate(tc, before, b) && Clean(before, tree, dirty) && Steady(ps, b, changed, dirty)
    ensures BuildAll(tc, tree, TouchedOf(ps, changed)) == BuildAll(tc, tree, ps)
    decreases |ps|
  {
    if ps != [] {
      var p, rest := ps[0], ps[1..];
      TouchedFirst(ps, changed);
      BuildFirst(tc, tree, ps);
      if Touched(p, changed) {
        BuildFirst(tc, tree, TouchedOf(ps, changed));
        if Build(tc, tree, p).status == Done {
          BuildClean(tc, before, tree, p, dirty, Among(p, b));
          SteadySame(tc, before, b, Build(tc, tree, p).tree, rest, changed, AfterBuild(dirty, p, Among(p, b)));
        }
      } else {
        CleanIsUpToDate(tc, before, b, tree, p, dirty);
        SteadySame(tc, before, b, tree, rest, changed, dirty);
      }
    }
  }
}

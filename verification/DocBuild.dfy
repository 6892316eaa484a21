/** Carrying a plan out (build_publication, execute_plan of docs/build_pdfs.py), and why the
    incremental plan leaves what a full rebuild would. */
module DocBuild {
  import opened DocPaths
  import opened DocPublications
  import opened DocPlan
  import opened Options

  type Content = string

  type Tree = map<Path, Content>

  /** The assembler, the renderer and the manifest writer, as functions of the declared inputs they
      are shown. None: the command fails, or the PDF is missing. */
  datatype Toolchain = Toolchain(
    assemble: (Publication, Tree) -> Option<Path -> Content>,
    render: (Publication, Tree) -> Option<Content>,
    manifest: (Publication, Content, Content) -> Option<Content>)

  datatype Status = Done | AssemblerFailed | SourceMissing | RendererFailed | ManifestFailed

  datatype Outcome = Outcome(tree: Tree, status: Status)

  function Restrict(tree: Tree, paths: set<Path>): Tree { map x | x in tree && x in paths :: tree[x] }

  function Reads(p: Publication): set<Path> { p.Inputs() + {p.source} }

  /** What rendering and describing write. */
  function Rendering(p: Publication): set<Path> { {p.target} + if p.manifest != "" then {p.manifest} else {} }

  /** What the assembler writes. */
  function Made(p: Publication): set<Path> { if p.assembler != [] then set g | g in p.generated else {} }

  function Writes(p: Publication): set<Path> { Rendering(p) + Made(p) }

  function Assembled(tc: Toolchain, tree: Tree, p: Publication): Option<Tree> {
    if p.assembler == [] then Some(tree)
    else
      match tc.assemble(p, Restrict(tree, p.Inputs()))
      case None => None
      case Some(content) => Some(tree + map g | g in p.generated :: content(g))
  }

  function Rendered(tc: Toolchain, tree: Tree, p: Publication): Outcome {
    if p.source !in tree then Outcome(tree, SourceMissing)
    else
      match tc.render(p, Restrict(tree, Reads(p)))
      case None => Outcome(tree, RendererFailed)
      case Some(pdf) =>
        if pdf == "" then Outcome(tree, RendererFailed) else Described(tc, tree[p.target := pdf], p, pdf)
  }

  /** The manifest, written when the PDF is in place. */
  function Described(tc: Toolchain, built: Tree, p: Publication, pdf: Content): Outcome
    requires p.source in built
  {
    if p.manifest == "" then Outcome(built, Done)
    else
      match tc.manifest(p, built[p.source], pdf)
      case None => Outcome(built, ManifestFailed)
      case Some(manifest) => Outcome(built[p.manifest := manifest], Done)
  }

  /** build_publication. */
  function Build(tc: Toolchain, tree: Tree, p: Publication): Outcome {
    match Assembled(tc, tree, p)
    case None => Outcome(tree, AssemblerFailed)
    case Some(assembled) => Rendered(tc, assembled, p)
  }

  function BuildAll(tc: Toolchain, tree: Tree, ps: seq<Publication>): Outcome
    decreases |ps|
  {
    if ps == [] then Outcome(tree, Done)
    else
      var first := Build(tc, tree, ps[0]);
      if first.status == Done then BuildAll(tc, first.tree, ps[1..]) else first
  }

  /** execute_plan: the targets in the order of the plan, up to the first failure, then the deletions. */
  function Execute(tc: Toolchain, tree: Tree, plan: Plan): Outcome {
    var built := BuildAll(tc, tree, plan.targets);
    if built.status == Done then Outcome(built.tree - (set d | d in plan.deletions), Done) else built
  }

  /** The working tree, updated in place. */
  class Workspace {
    var files: Tree

    constructor (tree: Tree)
      ensures files == tree
    {
      files := tree;
    }

    method BuildPublication(tc: Toolchain, p: Publication) returns (status: Status)
      modifies this
      ensures Outcome(files, status) == Build(tc, old(files), p)
      ensures status != Done ==>
                forall x :: x != p.target && x !in Made(p) ==> Agree(files, old(files), {x})
      ensures status != Done && status != ManifestFailed ==>
                forall x :: x !in Made(p) ==> Agree(files, old(files), {x})
    {
      if p.assembler != [] {
        var content := tc.assemble(p, Restrict(files, p.Inputs()));
        if content.None? { return AssemblerFailed; }
        files := files + map g | g in p.generated :: content.value(g);
      }
      if p.source !in files { return SourceMissing; }
      var pdf := tc.render(p, Restrict(files, Reads(p)));
      if pdf.None? || pdf.value == "" { return RendererFailed; }
      files := files[p.target := pdf.value];
      if p.manifest != "" {
        var manifest := tc.manifest(p, files[p.source], pdf.value);
        if manifest.None? { return ManifestFailed; }
        files := files[p.manifest := manifest.value];
      }
      return Done;
    }

    method ExecutePlan(tc: Toolchain, plan: Plan) returns (status: Status)
      modifies this
      ensures Outcome(files, status) == Execute(tc, old(files), plan)
    {
      ghost var start := files;
      for i := 0 to |plan.targets|
        invariant BuildAll(tc, start, plan.targets) == BuildAll(tc, files, plan.targets[i..])
      {
        status := BuildPublication(tc, plan.targets[i]);
        assert plan.targets[i..][1..] == plan.targets[i + 1..];
        if status != Done { return; }
      }
      ghost var built := files;
      for i := 0 to |plan.deletions|
        invariant files == built - set d | d in plan.deletions[..i]
      {
        assert plan.deletions[..i + 1] == plan.deletions[..i] + [plan.deletions[i]];
        if plan.deletions[i] in files {
          files := files - {plan.deletions[i]};
        }
      }
      assert plan.deletions[..|plan.deletions|] == plan.deletions;
      return Done;
    }
  }

  // ----- What a build does, file by file

  /** The files of a set of paths, and no others. */
  ghost predicate FilesOf(part: Tree, tree: Tree, paths: set<Path>) {
    (forall x :: x in part <==> x in tree && x in paths) && forall x :: x in part ==> part[x] == tree[x]
  }

  /** The tree with the generated files in place. */
  ghost predicate WithGenerated(after: Tree, tree: Tree, p: Publication, content: Path -> Content) {
    && (forall x :: x in after <==> x in tree || x in p.generated)
    && forall x :: x in after ==> after[x] == if x in p.generated then content(x) else tree[x]
  }

  /** A failing assembler leaves everything as it is; it is shown the inputs. */
  lemma AssemblerFails(tc: Toolchain, tree: Tree, p: Publication, given: Tree)
    requires FilesOf(given, tree, p.Inputs())
    ensures Build(tc, tree, p).status == AssemblerFailed <==> p.assembler != [] && tc.assemble(p, given).None?
    ensures Build(tc, tree, p).status == AssemblerFailed ==> Build(tc, tree, p).tree == tree
  {
    assert given == Restrict(tree, p.Inputs());
  }

  /** With the assembler done, or without one, p is rendered from `ready`. */
  lemma RendersFrom(tc: Toolchain, tree: Tree, p: Publication, given: Tree, content: Path -> Content, ready: Tree)
    requires FilesOf(given, tree, p.Inputs())
    requires if p.assembler == [] then ready == tree
             else tc.assemble(p, given) == Some(content) && WithGenerated(ready, tree, p, content)
    ensures Build(tc, tree, p) == Rendered(tc, ready, p)
  {
    assert given == Restrict(tree, p.Inputs());
    if p.assembler != [] {
      assert ready == tree + map g | g in p.generated :: content(g);
    }
  }

  /** A missing source, and a renderer that fails or leaves an empty PDF, leave `ready`; otherwise the
      PDF is at the target, and the manifest of source and PDF beside it if there is to be one. */
  lemma RenderedIs(tc: Toolchain, ready: Tree, p: Publication, shown: Tree)
    requires FilesOf(shown, ready, p.Inputs() + {p.source})
    ensures var r, pdf := Rendered(tc, ready, p), tc.render(p, shown);
            if p.source !in ready then r == Outcome(ready, SourceMissing)
            else if pdf == None || pdf == Some("") then r == Outcome(ready, RendererFailed)
            else
              var source := if p.source == p.target then pdf.value else ready[p.source];
              if p.manifest == "" then r == Outcome(ready[p.target := pdf.value], Done)
              else
                match tc.manifest(p, source, pdf.value)
                case None => r == Outcome(ready[p.target := pdf.value], ManifestFailed)
                case Some(text) => r == Outcome(ready[p.target := pdf.value][p.manifest := text], Done)
  {
    assert shown == Restrict(ready, Reads(p));
  }

  /** The last publication of a run is built from what the others left, if they succeeded. */
  lemma {:induction false} LastBuilt(tc: Toolchain, tree: Tree, ps: seq<Publication>, p: Publication)
    ensures var before := BuildAll(tc, tree, ps);
            BuildAll(tc, tree, ps + [p]) == if before.status == Done then Build(tc, before.tree, p) else before
    decreases |ps|
  {
    if ps == [] {
      assert [p][1..] == [];
    } else {
      assert (ps + [p])[1..] == ps[1..] + [p];
      if Build(tc, tree, ps[0]).status == Done {
        LastBuilt(tc, Build(tc, tree, ps[0]).tree, ps[1..], p);
      }
    }
  }

  /** Files are deleted only after every target was built, and then exactly those of the plan. */
  lemma DeletesLast(tc: Toolchain, tree: Tree, plan: Plan)
    ensures var built, r := BuildAll(tc, tree, plan.targets), Execute(tc, tree, plan);
            && r.status == built.status
            && (forall x :: x in r.tree <==> x in built.tree && (x in plan.deletions ==> built.status != Done))
            && forall x :: x in r.tree ==> r.tree[x] == built.tree[x]
  {
  }

  /** The outputs a plan names are the files a build writes, if generated files have an assembler. */
  lemma OutputsWritten(p: Publication)
    requires p.assembler != [] || p.generated == []
    ensures p.Outputs() == Writes(p)
  {
  }

  // ----- A build depends on what it reads and changes what it writes

  ghost predicate Agree(a: Tree, b: Tree, paths: set<Path>) {
    forall x :: x in paths ==> (x in a <==> x in b) && (x in a ==> a[x] == b[x])
  }

  lemma RestrictAgrees(a: Tree, b: Tree, paths: set<Path>, part: set<Path>)
    requires Agree(a, b, paths) && part <= paths
    ensures Restrict(a, part) == Restrict(b, part)
  {
  }

  lemma BuildFrame(tc: Toolchain, tree: Tree, p: Publication, x: Path)
    requires x !in Writes(p)
    ensures Agree(Build(tc, tree, p).tree, tree, {x})
  {
  }

  lemma RenderedLocal(tc: Toolchain, a: Tree, b: Tree, p: Publication, paths: set<Path>)
    requires Agree(a, b, paths) && Reads(p) <= paths
    ensures Rendered(tc, a, p).status == Rendered(tc, b, p).status
    ensures Rendered(tc, a, p).status == Done ==>
              Agree(Rendered(tc, a, p).tree, Rendered(tc, b, p).tree, paths + Rendering(p))
  {
    RestrictAgrees(a, b, paths, Reads(p));
  }

  lemma BuildLocal(tc: Toolchain, a: Tree, b: Tree, p: Publication)
    requires Agree(a, b, Reads(p))
    ensures Build(tc, a, p).status == Build(tc, b, p).status
    ensures Build(tc, a, p).status == Done ==> Agree(Build(tc, a, p).tree, Build(tc, b, p).tree, Writes(p))
  {
    RestrictAgrees(a, b, Reads(p), p.Inputs());
    var a', b' := Assembled(tc, a, p), Assembled(tc, b, p);
    if a'.Some? {
      var paths := Reads(p) + Made(p);
      assert Agree(a'.value, b'.value, paths);
      RenderedLocal(tc, a'.value, b'.value, p, paths);
    }
  }

  /** Building p would change nothing. */
  ghost predicate UpToDate(tc: Toolchain, tree: Tree, p: Publication) {
    Build(tc, tree, p) == Outcome(tree, Done)
  }

  /** Being up to date only depends on the files p reads and writes. */
  lemma UpToDateLocal(tc: Toolchain, a: Tree, b: Tree, p: Publication)
    requires UpToDate(tc, a, p) && Agree(a, b, Reads(p) + Writes(p))
    ensures UpToDate(tc, b, p)
  {
    BuildLocal(tc, a, b, p);
    var built := Build(tc, b, p).tree;
    assert Agree(a, built, Writes(p));
    forall x ensures Agree(built, b, {x}) {
      if x in Writes(p) {
        assert Agree(a, built, {x}) && Agree(a, b, {x});
      } else {
        BuildFrame(tc, b, p, x);
      }
    }
    SameTree(built, b);
  }

  lemma SameTree(a: Tree, b: Tree)
    requires forall x :: Agree(a, b, {x})
    ensures a == b
  {
    forall x ensures (x in a <==> x in b) && (x in a ==> a[x] == b[x]) {
      assert Agree(a, b, {x});
    }
  }

  // ----- Independent publications can be built in any order

  ghost predicate Apart(p: Publication, q: Publication) {
    Writes(p) !! Writes(q) && Writes(p) !! Reads(q)
  }

  ghost predicate Independent(ps: seq<Publication>) {
    forall i, j :: 0 <= i < |ps| && 0 <= j < |ps| && i != j ==> Apart(ps[i], ps[j])
  }

  /** What a run over ps leaves: each output as the publication alone would have built it from the
      tree at the start, everything else as it was. */
  ghost predicate BuiltEach(tc: Toolchain, tree: Tree, ps: seq<Publication>, result: Tree) {
    && (forall i :: 0 <= i < |ps| ==> Agree(result, Build(tc, tree, ps[i]).tree, Writes(ps[i])))
    && (forall x :: (forall i :: 0 <= i < |ps| ==> x !in Writes(ps[i])) ==> Agree(result, tree, {x}))
  }

  ghost predicate AllSucceed(tc: Toolchain, tree: Tree, ps: seq<Publication>) {
    forall i :: 0 <= i < |ps| ==> Build(tc, tree, ps[i]).status == Done
  }

  /** Building p does not disturb q. */
  lemma BuildUndisturbed(tc: Toolchain, tree: Tree, p: Publication, q: Publication)
    requires Apart(p, q)
    ensures var after := Build(tc, tree, p).tree;
            && Build(tc, after, q).status == Build(tc, tree, q).status
            && (Build(tc, tree, q).status == Done ==>
                  Agree(Build(tc, after, q).tree, Build(tc, tree, q).tree, Writes(q)))
  {
    var after := Build(tc, tree, p).tree;
    forall x | x in Reads(q) ensures Agree(after, tree, {x}) {
      BuildFrame(tc, tree, p, x);
    }
    assert Agree(after, tree, Reads(q)) by {
      forall x | x in Reads(q) ensures (x in after <==> x in tree) && (x in after ==> after[x] == tree[x]) {
        assert Agree(after, tree, {x});
      }
    }
    BuildLocal(tc, after, tree, q);
  }

  lemma AgreeTransitive(a: Tree, b: Tree, c: Tree, paths: set<Path>)
    requires Agree(a, b, paths) && Agree(b, c, paths)
    ensures Agree(a, c, paths)
  {
  }

  lemma IndependentRest(tc: Toolchain, tree: Tree, ps: seq<Publication>)
    requires ps != [] && Independent(ps)
    ensures Independent(ps[1..])
    ensures Build(tc, tree, ps[0]).status == Done ==>
              (AllSucceed(tc, tree, ps) <==> AllSucceed(tc, Build(tc, tree, ps[0]).tree, ps[1..]))
  {
    var rest, first := ps[1..], Build(tc, tree, ps[0]).tree;
    assert forall i :: 0 <= i < |rest| ==> rest[i] == ps[i + 1];
    forall j | 0 <= j < |rest| ensures Build(tc, first, rest[j]).status == Build(tc, tree, rest[j]).status {
      assert Apart(ps[0], ps[j + 1]);
      BuildUndisturbed(tc, tree, ps[0], rest[j]);
    }
  }

  lemma {:induction false} BuildAllPointwise(tc: Toolchain, tree: Tree, ps: seq<Publication>)
    requires Independent(ps)
    ensures BuildAll(tc, tree, ps).status == Done <==> AllSucceed(tc, tree, ps)
    ensures BuildAll(tc, tree, ps).status == Done ==> BuiltEach(tc, tree, ps, BuildAll(tc, tree, ps).tree)
    decreases |ps|
  {
    if ps != [] {
      IndependentRest(tc, tree, ps);
      if Build(tc, tree, ps[0]).status == Done {
        BuildAllPointwise(tc, Build(tc, tree, ps[0]).tree, ps[1..]);
        if BuildAll(tc, tree, ps).status == Done {
          BuiltEachCons(tc, tree, ps, BuildAll(tc, tree, ps).tree);
        }
      }
    }
  }

  lemma BuiltEachCons(tc: Toolchain, tree: Tree, ps: seq<Publication>, result: Tree)
    requires ps != [] && Independent(ps) && AllSucceed(tc, tree, ps)
    requires BuiltEach(tc, Build(tc, tree, ps[0]).tree, ps[1..], result)
    ensures BuiltEach(tc, tree, ps, result)
  {
    var p, rest, after := ps[0], ps[1..], Build(tc, tree, ps[0]).tree;
    forall i | 0 <= i < |ps| ensures Agree(result, Build(tc, tree, ps[i]).tree, Writes(ps[i])) {
      if i == 0 {
        forall x | x in Writes(p) ensures Agree(result, after, {x}) {
          forall j | 0 <= j < |rest| ensures x !in Writes(rest[j]) {
            assert Apart(ps[0], ps[j + 1]);
          }
        }
        AgreeEverywhere(result, after, Writes(p));
      } else {
        assert rest[i - 1] == ps[i] && Apart(ps[0], ps[i]);
        BuildUndisturbed(tc, tree, p, ps[i]);
        AgreeTransitive(result, Build(tc, after, ps[i]).tree, Build(tc, tree, ps[i]).tree, Writes(ps[i]));
      }
    }
    forall x | forall i :: 0 <= i < |ps| ==> x !in Writes(ps[i]) ensures Agree(result, tree, {x}) {
      assert x !in Writes(ps[0]);
      forall j | 0 <= j < |rest| ensures x !in Writes(rest[j]) {
        assert rest[j] == ps[j + 1];
      }
      BuildFrame(tc, tree, p, x);
      AgreeTransitive(result, after, tree, {x});
    }
  }

  lemma AgreeEverywhere(a: Tree, b: Tree, paths: set<Path>)
    requires forall x :: x in paths ==> Agree(a, b, {x})
    ensures Agree(a, b, paths)
  {
    forall x | x in paths ensures (x in a <==> x in b) && (x in a ==> a[x] == b[x]) {
      assert Agree(a, b, {x});
    }
  }

  // ----- Building settles

  /** p does not write over what it is made from; a source its assembler generates is no exception. */
  predicate Settles(p: Publication) {
    Writes(p) !! p.Inputs() && p.source != p.target && p.source != p.manifest
  }

  /** What p reads and does not make itself. */
  function Given(p: Publication): set<Path> {
    p.Inputs() + if p.assembler != [] && p.source in p.generated then {} else {p.source}
  }

  lemma AssembledTwice(tc: Toolchain, tree: Tree, p: Publication, again: Tree)
    requires Settles(p) && Assembled(tc, tree, p).Some? && Agree(again, tree, Given(p))
    ensures Assembled(tc, again, p).Some?
    ensures Agree(Assembled(tc, again, p).value, Assembled(tc, tree, p).value, Reads(p))
    ensures Agree(Assembled(tc, again, p).value, Assembled(tc, tree, p).value, Made(p))
  {
    RestrictAgrees(again, tree, Given(p), p.Inputs());
  }

  lemma RenderedTwice(tc: Toolchain, a: Tree, b: Tree, p: Publication)
    requires Agree(a, b, Reads(p)) && Rendered(tc, a, p).status == Done
    ensures Rendered(tc, b, p).status == Done
    ensures Agree(Rendered(tc, b, p).tree, Rendered(tc, a, p).tree, Rendering(p))
  {
    RenderedLocal(tc, a, b, p, Reads(p));
  }

  lemma RenderedFrame(tc: Toolchain, tree: Tree, p: Publication)
    ensures forall x :: x !in Rendering(p) ==> Agree(Rendered(tc, tree, p).tree, tree, {x})
  {
  }

  lemma AssembledFrame(tc: Toolchain, tree: Tree, p: Publication)
    requires Assembled(tc, tree, p).Some?
    ensures forall x :: x !in Made(p) ==> Agree(Assembled(tc, tree, p).value, tree, {x})
  {
  }

  /** Two rounds of writing `made` and then `out` leave what one round leaves. */
  lemma SecondRound(first: Tree, built: Tree, second: Tree, rebuilt: Tree, made: set<Path>, out: set<Path>)
    requires forall x :: x !in out ==> Agree(built, first, {x})
    requires forall x :: x !in made ==> Agree(second, built, {x})
    requires Agree(second, first, made)
    requires forall x :: x !in out ==> Agree(rebuilt, second, {x})
    requires Agree(rebuilt, built, out)
    ensures rebuilt == built
  {
    forall x ensures Agree(rebuilt, built, {x}) {
      if x !in out {
        assert Agree(rebuilt, second, {x}) && Agree(built, first, {x});
        assert x !in made ==> Agree(second, built, {x});
      }
    }
    SameTree(rebuilt, built);
  }

  /** Building a publication a second time changes nothing. */
  lemma BuildTwice(tc: Toolchain, tree: Tree, p: Publication)
    requires Settles(p) && Build(tc, tree, p).status == Done
    ensures UpToDate(tc, Build(tc, tree, p).tree, p)
  {
    var first, built := Assembled(tc, tree, p).value, Build(tc, tree, p).tree;
    GivenKept(tc, tree, p);
    AssembledTwice(tc, tree, p, built);
    var second := Assembled(tc, built, p).value;
    RenderedTwice(tc, first, second, p);
    RenderedFrame(tc, first, p);
    RenderedFrame(tc, second, p);
    AssembledFrame(tc, built, p);
    SecondRound(first, built, second, Rendered(tc, second, p).tree, Made(p), Rendering(p));
  }

  lemma GivenKept(tc: Toolchain, tree: Tree, p: Publication)
    requires Settles(p)
    ensures Agree(Build(tc, tree, p).tree, tree, Given(p))
  {
    forall x | x in Given(p) ensures Agree(Build(tc, tree, p).tree, tree, {x}) {
      BuildFrame(tc, tree, p, x);
    }
    AgreeEverywhere(Build(tc, tree, p).tree, tree, Given(p));
  }

  /** A path no publication of a run writes keeps its content. */
  lemma {:induction false} BuildAllFrame(tc: Toolchain, tree: Tree, ps: seq<Publication>, x: Path)
    requires forall i :: 0 <= i < |ps| ==> x !in Writes(ps[i])
    ensures Agree(BuildAll(tc, tree, ps).tree, tree, {x})
    decreases |ps|
  {
    if ps != [] {
      BuildFrame(tc, tree, ps[0], x);
      BuildAllFrame(tc, Build(tc, tree, ps[0]).tree, ps[1..], x);
    }
  }

  lemma BuildAllKeeps(tc: Toolchain, tree: Tree, ps: seq<Publication>, paths: set<Path>)
    requires forall i :: 0 <= i < |ps| ==> Writes(ps[i]) !! paths
    ensures Agree(BuildAll(tc, tree, ps).tree, tree, paths)
  {
    forall x | x in paths ensures Agree(BuildAll(tc, tree, ps).tree, tree, {x}) {
      BuildAllFrame(tc, tree, ps, x);
    }
    AgreeEverywhere(BuildAll(tc, tree, ps).tree, tree, paths);
  }

  /** After a successful run a publication is up to date unless a later one writes what it reads or writes. */
  lemma {:induction false} BuildAllSettles(tc: Toolchain, tree: Tree, ps: seq<Publication>, i: nat)
    requires i < |ps| && Settles(ps[i])
    requires forall j :: i < j < |ps| ==> Writes(ps[j]) !! Reads(ps[i]) + Writes(ps[i])
    requires BuildAll(tc, tree, ps).status == Done
    ensures UpToDate(tc, BuildAll(tc, tree, ps).tree, ps[i])
    decreases |ps|
  {
    var first, rest := Build(tc, tree, ps[0]).tree, ps[1..];
    if i == 0 {
      var p := ps[0];
      BuildTwice(tc, tree, p);
      BuildAllKeeps(tc, first, rest, Reads(p) + Writes(p));
      UpToDateLocal(tc, first, BuildAll(tc, tree, ps).tree, p);
    } else {
      BuildAllSettles(tc, first, rest, i - 1);
    }
  }

  /** A publication that is up to date has its source and everything it writes in the tree. */
  lemma UpToDateDelivers(tc: Toolchain, tree: Tree, p: Publication)
    requires UpToDate(tc, tree, p)
    ensures Writes(p) <= tree.Keys
    ensures Settles(p) ==> p.source in tree
  {
    var assembled := Assembled(tc, tree, p).value;
    assert Rendered(tc, assembled, p).tree == tree;
  }

  /** Its PDF is the rendering of the tree's own files, and its manifest describes that PDF. */
  lemma UpToDateRenders(tc: Toolchain, tree: Tree, p: Publication)
    requires UpToDate(tc, tree, p) && Settles(p) && p.target != p.manifest
    ensures p.target in tree && tree[p.target] != "" && tc.render(p, Restrict(tree, Reads(p))) == Some(tree[p.target])
    ensures p.manifest != "" ==>
              p.manifest in tree && p.source in tree
              && tc.manifest(p, tree[p.source], tree[p.target]) == Some(tree[p.manifest])
  {
    var assembled := Assembled(tc, tree, p).value;
    assert Rendered(tc, assembled, p).tree == tree;
    forall x | x in Reads(p) ensures Agree(assembled, tree, {x}) {
      assert x != p.target && (p.manifest != "" ==> x != p.manifest);
    }
    AgreeEverywhere(assembled, tree, Reads(p));
    RestrictAgrees(assembled, tree, Reads(p), Reads(p));
  }
}

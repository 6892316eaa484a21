/** Small trees for docs/build_pdfs.py: a range that is ready for the incremental build, and ranges on
    which the incremental and the full build come apart. */
module DocExamples {
  import opened Options
  import opened Counting
  import opened DocPaths
  import opened DocPublications
  import opened DocPlan
  import opened DocBuild
  import opened DocIncremental
  import opened DocSteady
  import opened DocDivergence

  /** The first of the declared inputs. */
  function Quoted(p: Publication): Path { if p.dependencies == [] then p.source else p.dependencies[0] }

  /** Tools whose PDF is the first declared input itself. */
  function Copying(): Toolchain {
    Toolchain(
      (p: Publication, shown: Tree) => None,
      (p: Publication, shown: Tree) => if Quoted(p) in shown then Some(shown[Quoted(p)]) else None,
      (p: Publication, source: Content, pdf: Content) => None)
  }

  /** A publication that is rendered only. */
  predicate Simple(p: Publication) { p.assembler == [] && p.manifest == "" }

  predicate Copyable(tree: Tree, p: Publication) {
    Simple(p) && p.source in tree && Quoted(p) in tree && tree[Quoted(p)] != ""
  }

  lemma CopyBuilds(tree: Tree, p: Publication)
    requires Copyable(tree, p)
    ensures Build(Copying(), tree, p) == Outcome(tree[p.target := tree[Quoted(p)]], Done)
  {
    assert Quoted(p) in Reads(p);
  }

  lemma CopyUpToDate(tree: Tree, p: Publication)
    requires Copyable(tree, p) && p.target in tree && tree[p.target] == tree[Quoted(p)]
    ensures UpToDate(Copying(), tree, p)
  {
    CopyBuilds(tree, p);
    assert tree[p.target := tree[p.target]] == tree;
  }

  lemma DirectIsSimple(source: Path)
    ensures var p := DirectPublication(source);
            Simple(p) && Writes(p) == {PdfOf(source)} && p.Inputs() == {source} && Quoted(p) == source
  {
  }

  lemma PdfIsNoMarkdown(p: Path)
    ensures !EndsWith(PdfOf(p), ".md")
  {
    var pdf := PdfOf(p);
    assert pdf[|pdf| - 1] == 'f';
    if EndsWith(pdf, ".md") {
      SuffixChars(pdf);
    }
  }

  // ----- Two documents, one of them edited

  const NO_CONFIG := Config([], [], [])

  ghost predicate Pairs(first: Path, second: Path) {
    && EndsWith(first, ".md") && EndsWith(second, ".md") && PdfOf(first) != PdfOf(second)
    && "docs/" <= first && "docs/" <= second && "docs/" <= PdfOf(first) && "docs/" <= PdfOf(second)
    && first !in INFRA_PATHS
  }

  function TwoDocuments(first: Path, second: Path, x: Content, y: Content): Tree {
    map[first := x, PdfOf(first) := x, second := y, PdfOf(second) := y]
  }

  lemma NothingDeclared(paths: set<Path>)
    ensures Explicit(NO_CONFIG) == [] && ExplicitAt(NO_CONFIG, paths) == map[]
    ensures ReservedSources(NO_CONFIG) == {} && ManualTargets(NO_CONFIG) == {}
  {
    assert Explicit(NO_CONFIG) == [];
  }

  lemma PairsFound(first: Path, second: Path, paths: set<Path>)
    requires Pairs(first, second) && paths == {first, PdfOf(first), second, PdfOf(second)}
    ensures DiscoveredSources(NO_CONFIG, paths) == {first, second}
  {
    NothingDeclared(paths);
    PdfIsNoMarkdown(first);
    PdfIsNoMarkdown(second);
  }

  function PairPublications(first: Path, second: Path): Publications {
    map[PdfOf(first) := DirectPublication(first), PdfOf(second) := DirectPublication(second)]
  }

  lemma SoleClaim(found: set<Path>, s: Path)
    requires s in found && forall q :: q in found && PdfOf(q) == PdfOf(s) ==> q == s
    ensures PdfOf(s) in Complete(map[], found) && Complete(map[], found)[PdfOf(s)] == DirectPublication(s)
  {
    assert s in Claimants(found, PdfOf(s));
  }

  lemma CompleteKeys(explicit: Publications, found: set<Path>)
    ensures Complete(explicit, found).Keys == explicit.Keys + ClaimedTargets(found)
  {
  }

  lemma PairTargets(found: set<Path>, first: Path, second: Path)
    requires forall s :: s in found <==> s == first || s == second
    ensures ClaimedTargets(found) == {PdfOf(first), PdfOf(second)}
  {
  }

  lemma PairMap(first: Path, second: Path, pubs: Publications)
    requires PdfOf(first) != PdfOf(second) && pubs.Keys == {PdfOf(first), PdfOf(second)}
    requires pubs[PdfOf(first)] == DirectPublication(first) && pubs[PdfOf(second)] == DirectPublication(second)
    ensures pubs == PairPublications(first, second)
  {
  }

  lemma CompletePair(found: set<Path>, first: Path, second: Path)
    requires PdfOf(first) != PdfOf(second) && forall s :: s in found <==> s == first || s == second
    ensures Complete(map[], found) == PairPublications(first, second)
  {
    assert Complete(map[], found).Keys == {PdfOf(first), PdfOf(second)} by {
      CompleteKeys(map[], found);
      PairTargets(found, first, second);
    }
    SoleClaim(found, first);
    SoleClaim(found, second);
    PairMap(first, second, Complete(map[], found));
  }

  lemma PairsPublished(first: Path, second: Path, paths: set<Path>)
    requires Pairs(first, second) && paths == {first, PdfOf(first), second, PdfOf(second)}
    ensures PublicationsAt(NO_CONFIG, paths) == PairPublications(first, second)
  {
    NothingDeclared(paths);
    PairsFound(first, second, paths);
    CompletePair({first, second}, first, second);
    PublishedAs(NO_CONFIG, paths, map[], {first, second});
  }

  lemma PublishedAs(config: Config, paths: set<Path>, explicit: Publications, found: set<Path>)
    requires ExplicitAt(config, paths) == explicit && DiscoveredSources(config, paths) == found
    ensures PublicationsAt(config, paths) == Complete(explicit, found)
  {
  }

  lemma TwoTracked(first: Path, second: Path, x: Content, y: Content)
    requires Pairs(first, second)
    ensures Tracked(TwoDocuments(first, second, x, y)) == {first, PdfOf(first), second, PdfOf(second)}
  {
  }

  lemma PairApart(first: Path, second: Path)
    requires Pairs(first, second)
    ensures Touched(DirectPublication(first), {first}) && !Touched(DirectPublication(second), {first})
    ensures Writes(DirectPublication(first)) !! Reads(DirectPublication(second)) + Writes(DirectPublication(second))
    ensures Writes(DirectPublication(second)) !! {first}
  {
    DirectIsSimple(first);
    DirectIsSimple(second);
    PdfIsNoMarkdown(first);
    PdfIsNoMarkdown(second);
  }

  lemma CoversEdit(before: Tree, x: Path, z: Content)
    requires x in before
    ensures Covers({x}, before, before[x := z])
  {
  }

  lemma PdfUpToDate(tree: Tree, source: Path)
    requires source in tree && tree[source] != "" && PdfOf(source) in tree && tree[PdfOf(source)] == tree[source]
    ensures UpToDate(Copying(), tree, DirectPublication(source))
  {
    DirectIsSimple(source);
    CopyUpToDate(tree, DirectPublication(source));
  }

  lemma PairUpToDate(first: Path, second: Path, x: Content, y: Content)
    requires Pairs(first, second) && x != "" && y != ""
    ensures AllUpToDate(Copying(), TwoDocuments(first, second, x, y), PairPublications(first, second))
  {
    PdfIsNoMarkdown(first);
    PdfIsNoMarkdown(second);
    PdfUpToDate(TwoDocuments(first, second, x, y), first);
    PdfUpToDate(TwoDocuments(first, second, x, y), second);
    BothUpToDate(TwoDocuments(first, second, x, y), first, second);
  }

  lemma BothUpToDate(tree: Tree, first: Path, second: Path)
    requires UpToDate(Copying(), tree, DirectPublication(first)) && UpToDate(Copying(), tree, DirectPublication(second))
    ensures AllUpToDate(Copying(), tree, PairPublications(first, second))
  {
  }

  /** An edited document next to an untouched one meets every premise of the incremental theorem. */
  lemma EditIsReady(first: Path, second: Path, x: Content, y: Content, z: Content)
    requires Pairs(first, second) && x != "" && y != ""
    ensures var before := TwoDocuments(first, second, x, y);
            Ready(Copying(), NO_CONFIG, before, before[first := z], {first}) && {first} * INFRA_PATHS == {}
  {
    var before := TwoDocuments(first, second, x, y);
    var after := before[first := z];
    TwoTracked(first, second, x, y);
    assert Tracked(after) == Tracked(before);
    PairsPublished(first, second, Tracked(before));
    CoversEdit(before, first, z);
    PairUpToDate(first, second, x, y);
    PairSteady(first, second, before, after);
  }

  lemma InPair(first: Path, second: Path, p: Publication)
    requires p in FullPlan(PairPublications(first, second)).targets
    ensures p == DirectPublication(first) || p == DirectPublication(second)
  {
    var a := PairPublications(first, second);
    FullPlanTargets(a);
    var t :| t in a && a[t] == p;
  }

  lemma PairOrdered(first: Path, second: Path, ps: seq<Publication>)
    requires Pairs(first, second)
    requires forall p :: p in ps ==> p == DirectPublication(first) || p == DirectPublication(second)
    ensures Ordered(ps, {first})
  {
    PairApart(first, second);
    forall i, j | 0 <= i < j < |ps| && Touched(ps[i], {first}) && !Touched(ps[j], {first})
      ensures Writes(ps[i]) !! Reads(ps[j]) + Writes(ps[j])
    {
      assert ps[i] in ps && ps[j] in ps;
    }
  }

  lemma PairSteady(first: Path, second: Path, before: Tree, after: Tree)
    requires Pairs(first, second) && Tracked(before) == Tracked(after) && Covers({first}, before, after)
    requires PublicationsIn(NO_CONFIG, after) == PairPublications(first, second)
    ensures Steady(FullPlan(PairPublications(first, second)).targets, PublicationsIn(NO_CONFIG, before), {first},
                   Differences(before, after))
  {
    var ps := FullPlan(PairPublications(first, second)).targets;
    AllInPair(first, second);
    PairApart(first, second);
    PairOrdered(first, second, ps);
    SameSourcesStay(NO_CONFIG, before, after, {first});
    TidyIsSteady(NO_CONFIG, before, after, {first});
  }

  lemma AllInPair(first: Path, second: Path)
    ensures forall p :: p in FullPlan(PairPublications(first, second)).targets ==>
              p == DirectPublication(first) || p == DirectPublication(second)
  {
    forall p | p in FullPlan(PairPublications(first, second)).targets
      ensures p == DirectPublication(first) || p == DirectPublication(second)
    {
      InPair(first, second, p);
    }
  }

  // ----- A target that changes hands

  /** `declared` is declared as the source of `target`. */
  function Takeover(declared: Path, target: Path): Config {
    Config([DirectEntry("", Pair(declared, target), [])], [], [])
  }

  /** `beside` is the Markdown file next to the declared target. */
  ghost predicate TakeoverPaths(declared: Path, beside: Path) {
    && EndsWith(beside, ".md") && declared != beside && declared != PdfOf(beside) && declared !in INFRA_PATHS
    && "docs/" <= declared && "docs/" <= beside && "docs/" <= PdfOf(beside)
  }

  function DeclaredPublication(declared: Path, target: Path): Publication {
    Publication(target, declared, target, [declared], [], [], "", DirectExplicit)
  }

  lemma TakeoverExplicit(declared: Path, target: Path, paths: set<Path>)
    requires target != ""
    ensures ReservedSources(Takeover(declared, target)) == {} && ManualTargets(Takeover(declared, target)) == {}
    ensures ExplicitAt(Takeover(declared, target), paths)
         == if declared in paths then map[target := DeclaredPublication(declared, target)] else map[]
  {
    var config, p := Takeover(declared, target), DeclaredPublication(declared, target);
    assert Explicit(config) == [p];
    assert Filter([p], paths) == if Kept(p, paths) then [p] else [];
    assert ByTarget([p]) == map[target := p];
  }

  /** Whatever Markdown files there are, only the declared target can be claimed. */
  lemma OnlyOnePdf(config: Config, declared: Path, beside: Path, paths: set<Path>, s: Path)
    requires EndsWith(beside, ".md") && paths <= {declared, beside, PdfOf(beside)} && Discovered(config, paths, s)
    ensures PdfOf(s) == PdfOf(beside)
  {
    PdfIsNoMarkdown(s);
    assert PdfOf(s) in paths;
  }

  lemma TakeoverDiscovered(declared: Path, beside: Path, paths: set<Path>)
    requires TakeoverPaths(declared, beside)
    requires paths == {declared, beside, PdfOf(beside)} || paths == {beside, PdfOf(beside)}
    ensures var found := DiscoveredSources(Takeover(declared, PdfOf(beside)), paths);
            && beside in found && (forall s :: s in found ==> PdfOf(s) == PdfOf(beside))
            && (declared !in paths ==> found == {beside})
  {
    var config := Takeover(declared, PdfOf(beside));
    TakeoverExplicit(declared, PdfOf(beside), paths);
    PdfIsNoMarkdown(beside);
    assert Discovered(config, paths, beside);
    forall s | s in DiscoveredSources(config, paths) ensures PdfOf(s) == PdfOf(beside) {
      OnlyOnePdf(config, declared, beside, paths, s);
    }
  }

  lemma SingleTarget(found: set<Path>, beside: Path)
    requires beside in found && (forall s :: s in found ==> PdfOf(s) == PdfOf(beside))
    ensures ClaimedTargets(found) == {PdfOf(beside)}
  {
  }

  lemma DeclaredAlone(found: set<Path>, beside: Path, p: Publication)
    requires beside in found && (forall s :: s in found ==> PdfOf(s) == PdfOf(beside))
    ensures Complete(map[PdfOf(beside) := p], found) == map[PdfOf(beside) := p]
  {
    CompleteKeys(map[PdfOf(beside) := p], found);
    SingleTarget(found, beside);
  }

  lemma DiscoveredAlone(beside: Path)
    ensures Complete(map[], {beside}) == map[PdfOf(beside) := DirectPublication(beside)]
  {
    CompleteKeys(map[], {beside});
    SingleTarget({beside}, beside);
    SoleClaim({beside}, beside);
    SingleMap(Complete(map[], {beside}), PdfOf(beside), DirectPublication(beside));
  }

  lemma SingleMap(pubs: Publications, t: Path, p: Publication)
    requires pubs.Keys == {t} && pubs[t] == p
    ensures pubs == map[t := p]
  {
  }

  lemma BeforeTakeover(declared: Path, beside: Path, paths: set<Path>)
    requires TakeoverPaths(declared, beside) && paths == {declared, beside, PdfOf(beside)}
    ensures PublicationsAt(Takeover(declared, PdfOf(beside)), paths)
         == map[PdfOf(beside) := DeclaredPublication(declared, PdfOf(beside))]
  {
    var config := Takeover(declared, PdfOf(beside));
    PdfIsNoMarkdown(beside);
    TakeoverExplicit(declared, PdfOf(beside), paths);
    TakeoverDiscovered(declared, beside, paths);
    DeclaredAlone(DiscoveredSources(config, paths), beside, DeclaredPublication(declared, PdfOf(beside)));
  }

  lemma AfterTakeover(declared: Path, beside: Path, paths: set<Path>)
    requires TakeoverPaths(declared, beside) && paths == {beside, PdfOf(beside)}
    ensures PublicationsAt(Takeover(declared, PdfOf(beside)), paths) == map[PdfOf(beside) := DirectPublication(beside)]
  {
    PdfIsNoMarkdown(beside);
    TakeoverExplicit(declared, PdfOf(beside), paths);
    TakeoverDiscovered(declared, beside, paths);
    DiscoveredAlone(beside);
  }

  lemma TakeoverUpToDate(declared: Path, beside: Path, x: Content, y: Content)
    requires TakeoverPaths(declared, beside) && x != ""
    ensures var target := PdfOf(beside);
            AllUpToDate(Copying(), TakeoverTree(declared, beside, x, y),
                        map[target := DeclaredPublication(declared, target)])
  {
    var target := PdfOf(beside);
    PdfIsNoMarkdown(beside);
    var p := DeclaredPublication(declared, target);
    assert p.Inputs() == {declared};
    CopyUpToDate(TakeoverTree(declared, beside, x, y), p);
  }

  function TakeoverTree(declared: Path, beside: Path, x: Content, y: Content): Tree {
    map[declared := x, beside := y, PdfOf(beside) := x]
  }

  lemma TakeoverTracked(declared: Path, beside: Path, x: Content, y: Content)
    requires TakeoverPaths(declared, beside)
    ensures Tracked(TakeoverTree(declared, beside, x, y)) == {declared, beside, PdfOf(beside)}
    ensures TakeoverTree(declared, beside, x, y) - {declared} == map[beside := y, PdfOf(beside) := x]
    ensures Tracked(map[beside := y, PdfOf(beside) := x]) == {beside, PdfOf(beside)}
  {
  }

  lemma TakeoverIn(declared: Path, beside: Path, x: Content, y: Content)
    requires TakeoverPaths(declared, beside)
    ensures var config, target := Takeover(declared, PdfOf(beside)), PdfOf(beside);
            var before := TakeoverTree(declared, beside, x, y);
            && PublicationsIn(config, before) == map[target := DeclaredPublication(declared, target)]
            && PublicationsIn(config, before - {declared}) == map[target := DirectPublication(beside)]
  {
    var before := TakeoverTree(declared, beside, x, y);
    TakeoverTracked(declared, beside, x, y);
    BeforeTakeover(declared, beside, Tracked(before));
    AfterTakeover(declared, beside, Tracked(before - {declared}));
  }

  /** Both builds succeed, and the target ends as `kept` and as `built`. */
  ghost predicate Ends(b: Publications, a: Publications, after: Tree, changed: set<Path>, target: Path,
                       kept: Content, built: Content)
  {
    && Execute(Copying(), after, RangePlan(b, a, changed)) == Outcome(after[target := kept], Done)
    && Execute(Copying(), after, FullPlan(a)) == Outcome(after[target := built], Done)
  }

  /** Removing the declared source hands the target over to the file beside it, which has not
      changed. The PDF was up to date; the incremental build succeeds and leaves it showing the removed
      source; the full build replaces it by the file beside. */
  lemma TakeoverOnTrees(declared: Path, beside: Path, x: Content, y: Content, b: Publications, a: Publications)
    requires TakeoverPaths(declared, beside) && x != y && x != "" && y != ""
    requires b == PublicationsIn(Takeover(declared, PdfOf(beside)), TakeoverTree(declared, beside, x, y))
    requires a == PublicationsIn(Takeover(declared, PdfOf(beside)), TakeoverTree(declared, beside, x, y) - {declared})
    ensures AllUpToDate(Copying(), TakeoverTree(declared, beside, x, y), b)
    ensures Ends(b, a, TakeoverTree(declared, beside, x, y) - {declared}, {declared}, PdfOf(beside), x, y)
  {
    TakeoverIn(declared, beside, x, y);
    TakeoverDone(declared, beside, x, y);
  }

  lemma TakeoverDone(declared: Path, beside: Path, x: Content, y: Content)
    requires TakeoverPaths(declared, beside) && x != "" && y != ""
    ensures var target := PdfOf(beside);
            var before, b := TakeoverTree(declared, beside, x, y), map[target := DeclaredPublication(declared, target)];
            && AllUpToDate(Copying(), before, b)
            && Ends(b, map[target := DirectPublication(beside)], before - {declared}, {declared}, target, x, y)
  {
    TakeoverUpToDate(declared, beside, x, y);
    TakeoverTracked(declared, beside, x, y);
    PdfIsNoMarkdown(beside);
    TakeoverBuilds(declared, beside, TakeoverTree(declared, beside, x, y) - {declared});
  }

  /** The premises of the divergence theorem hold. */
  lemma TakeoverMeetsPremises(declared: Path, beside: Path, x: Content, y: Content)
    requires TakeoverPaths(declared, beside) && x != ""
    ensures var config, before := Takeover(declared, PdfOf(beside)), TakeoverTree(declared, beside, x, y);
            var after := before - {declared};
            var b, a := PublicationsIn(config, before), PublicationsIn(config, after);
            && config.Valid() && Covers({declared}, before, after) && DisjointWrites(b) && DisjointWrites(a)
            && Present(before, b) && Buildable(after, a) && TakenOver(config, before, after, {declared}, PdfOf(beside))
  {
    var before := TakeoverTree(declared, beside, x, y);
    PdfIsNoMarkdown(beside);
    DirectIsSimple(beside);
    TakeoverTracked(declared, beside, x, y);
    TakeoverIn(declared, beside, x, y);
    CoversRemoval(before, declared);
  }

  lemma CoversRemoval(before: Tree, x: Path)
    ensures Covers({x}, before, before - {x})
  {
  }

  lemma TakeoverBuilds(declared: Path, beside: Path, after: Tree)
    requires TakeoverPaths(declared, beside) && PdfOf(beside) in after && beside in after && after[beside] != ""
    ensures var target := PdfOf(beside);
            var b, a := map[target := DeclaredPublication(declared, target)], map[target := DirectPublication(beside)];
            Ends(b, a, after, {declared}, target, after[target], after[beside])
  {
    var target, q := PdfOf(beside), DirectPublication(beside);
    DirectIsSimple(beside);
    assert after[target := after[target]] == after;
    assert !Touched(q, {declared});
    NothingPlanned(map[target := DeclaredPublication(declared, target)], q, after, {declared});
    CopyBuilds(after, q);
    FullOfOne(q, after);
  }

  lemma NothingPlanned(b: Publications, q: Publication, tree: Tree, changed: set<Path>)
    requires b.Keys <= {q.target} && !Touched(q, changed) && changed * INFRA_PATHS == {}
    ensures Execute(Copying(), tree, RangePlan(b, map[q.target := q], changed)) == Outcome(tree, Done)
  {
    var a: Publications := map[q.target := q];
    assert Selected(a, changed) == map[] && Obsolete(b, a, changed) == map[];
    assert OutputsOf(map[]) == {} && RecordsOf(map[]) == map[];
    EmptyPayload(tree, SortedPaths(changed));
  }

  lemma EmptyPayload(tree: Tree, changed: seq<Path>)
    ensures Execute(Copying(), tree, Payload("incremental", map[], {}, changed, map[])) == Outcome(tree, Done)
  {
    NothingDeleted(tree);
  }

  lemma FullOfOne(q: Publication, tree: Tree)
    requires Build(Copying(), tree, q).status == Done
    ensures Execute(Copying(), tree, FullPlan(map[q.target := q])) == Build(Copying(), tree, q)
  {
    var a: Publications := map[q.target := q];
    FullPlanDeletesNothing(Copying(), tree, a);
    var keys := SortedPaths({q.target});
    assert keys[0] in keys;
    assert FullPlan(a).targets == [q];
    assert BuildAll(Copying(), Build(Copying(), tree, q).tree, []).status == Done;
  }

  // ----- A deleted input

  /** A composite made from the PDF of another document. */
  ghost predicate Collects(p: Publication, part: Path) {
    && p.kind == Composite && PdfOf(part) in p.Inputs() && p.target != PdfOf(part)
    && EndsWith(part, ".md") && p.source != part && part !in INFRA_PATHS
  }

  lemma CollectorExplicit(p: Publication, paths: set<Path>)
    requires p.kind == Composite
    ensures var config := Config([], [p], []);
            && config.Valid() && ExplicitAt(config, paths) == map[p.target := p]
            && ReservedSources(config) == {p.source} && ManualTargets(config) == {}
  {
    var config := Config([], [p], []);
    assert Explicit(config) == [p];
    assert Filter([p], paths) == [p];
    assert ByTarget([p]) == map[p.target := p];
  }

  lemma PartPublished(p: Publication, part: Path, paths: set<Path>)
    requires Collects(p, part) && paths == {part, PdfOf(part), p.source}
    ensures var config, t := Config([], [p], []), PdfOf(part);
            t in PublicationsAt(config, paths) && PublicationsAt(config, paths)[t].source == part
  {
    var config := Config([], [p], []);
    CollectorExplicit(p, paths);
    PdfIsNoMarkdown(part);
    var found := DiscoveredSources(config, paths);
    assert Discovered(config, paths, part);
    assert PdfOf(part) in ClaimedTargets(found);
    assert FirstClaimant(found, PdfOf(part)) in found;
  }

  lemma NothingFound(p: Publication, part: Path, paths: set<Path>)
    requires Collects(p, part) && paths == {PdfOf(part), p.source}
    ensures DiscoveredSources(Config([], [p], []), paths) == {}
  {
    CollectorExplicit(p, paths);
    PdfIsNoMarkdown(part);
  }

  lemma PartGone(p: Publication, part: Path, paths: set<Path>)
    requires Collects(p, part) && paths == {PdfOf(part), p.source}
    ensures PublicationsAt(Config([], [p], []), paths) == map[p.target := p]
  {
    CollectorExplicit(p, paths);
    NothingFound(p, part, paths);
    CompleteNothing(map[p.target := p]);
  }

  lemma CompleteNothing(explicit: Publications)
    ensures Complete(explicit, {}) == explicit
  {
    CompleteKeys(explicit, {});
    assert ClaimedTargets({}) == {};
  }

  /** Removing the part deletes its PDF, though the composite, which is still published, reads it. */
  lemma DeletedInput(p: Publication, part: Path)
    requires Collects(p, part)
    ensures var config := Config([], [p], []);
            var b := PublicationsAt(config, {part, PdfOf(part), p.source});
            var a := PublicationsAt(config, {PdfOf(part), p.source});
            && p.target in a && a[p.target] == p && PdfOf(part) in Reads(p)
            && PdfOf(part) in RangePlan(b, a, {part}).deletions
  {
    var config := Config([], [p], []);
    var before, after := {part, PdfOf(part), p.source}, {PdfOf(part), p.source};
    PartPublished(p, part, before);
    PartGone(p, part, after);
    CollectorExplicit(p, before);
    DeletionsAre(config, before, after, {part}, PdfOf(part));
  }

  // ----- A PDF that is added beside its Markdown file

  /** The untouched file becomes a publication by the added PDF alone: the incremental build leaves the
      PDF as it was added, the full one renders it. */
  lemma AddedOnTrees(source: Path, x: Content, z: Content)
    requires EndsWith(source, ".md") && "docs/" <= source && "docs/" <= PdfOf(source)
    requires PdfOf(source) !in INFRA_PATHS && x != ""
    ensures var before, after := map[source := x], map[source := x, PdfOf(source) := z];
            var b, a := PublicationsIn(NO_CONFIG, before), PublicationsIn(NO_CONFIG, after);
            && b == map[] && a == map[PdfOf(source) := DirectPublication(source)]
            && Ends(b, a, after, {PdfOf(source)}, PdfOf(source), z, x)
  {
    var after: Tree, q := map[source := x, PdfOf(source) := z], DirectPublication(source);
    AddedPublications(source, x, z);
    DirectIsSimple(source);
    PdfIsNoMarkdown(source);
    assert after[PdfOf(source) := z] == after;
    NothingPlanned(map[], q, after, {PdfOf(source)});
    CopyBuilds(after, q);
    FullOfOne(q, after);
  }

  lemma AddedPublications(source: Path, x: Content, z: Content)
    requires EndsWith(source, ".md") && "docs/" <= source && "docs/" <= PdfOf(source)
    ensures PublicationsIn(NO_CONFIG, map[source := x]) == map[]
    ensures PublicationsIn(NO_CONFIG, map[source := x, PdfOf(source) := z])
         == map[PdfOf(source) := DirectPublication(source)]
  {
    PdfIsNoMarkdown(source);
    assert Tracked(map[source := x]) == {source};
    assert Tracked(map[source := x, PdfOf(source) := z]) == {source, PdfOf(source)};
    NothingDeclared({source});
    NothingDeclared({source, PdfOf(source)});
    assert DiscoveredSources(NO_CONFIG, {source}) == {};
    assert DiscoveredSources(NO_CONFIG, {source, PdfOf(source)}) == {source};
    CompleteNothing(map[]);
    DiscoveredAlone(source);
  }

  // ----- A publication made from the PDF of another one

  /** A composite whose first input is the PDF of a document, and which comes later in the plan. */
  ghost predicate Chained(p: Publication, part: Path) {
    && p.kind == Composite && Simple(p) && p.dependencies == [PdfOf(part), p.source]
    && EndsWith(part, ".md") && EndsWith(p.source, ".md") && !EndsWith(p.target, ".md")
    && p.source != part && p.target != PdfOf(part) && AtMost(PdfOf(part), p.target) && part !in INFRA_PATHS
    && "docs/" <= part && "docs/" <= PdfOf(part) && "docs/" <= p.source && "docs/" <= p.target
  }

  function ChainTree(p: Publication, part: Path, x: Content, s: Content): Tree {
    map[part := x, PdfOf(part) := x, p.source := s, p.target := x]
  }

  function ChainPublications(p: Publication, part: Path): Publications {
    map[PdfOf(part) := DirectPublication(part), p.target := p]
  }

  lemma OnlyPartFound(p: Publication, part: Path, paths: set<Path>, s: Path)
    requires Chained(p, part) && paths == {part, PdfOf(part), p.source, p.target}
    requires s in paths && EndsWith(s, ".md") && s !in {p.source}
    ensures s == part
  {
    PdfIsNoMarkdown(part);
  }

  lemma ChainFound(p: Publication, part: Path, paths: set<Path>)
    requires Chained(p, part) && paths == {part, PdfOf(part), p.source, p.target}
    ensures DiscoveredSources(Config([], [p], []), paths) == {part}
  {
    var config := Config([], [p], []);
    assert ReservedSources(config) == {p.source} && ManualTargets(config) == {} by {
      CollectorExplicit(p, paths);
    }
    assert Discovered(config, paths, part);
    forall s | s in paths && Discovered(config, paths, s) ensures s == part {
      OnlyPartFound(p, part, paths, s);
    }
  }

  lemma ChainComplete(p: Publication, part: Path)
    requires p.target != PdfOf(part)
    ensures Complete(map[p.target := p], {part}) == ChainPublications(p, part)
  {
    var pubs := Complete(map[p.target := p], {part});
    assert pubs.Keys == {p.target, PdfOf(part)} by {
      CompleteKeys(map[p.target := p], {part});
      SingleTarget({part}, part);
    }
    assert pubs[PdfOf(part)] == DirectPublication(part) by {
      assert part in Claimants({part}, PdfOf(part));
    }
    MapOfTwo(pubs, p.target, p, PdfOf(part), DirectPublication(part));
  }

  lemma MapOfTwo(pubs: Publications, s: Path, p: Publication, t: Path, q: Publication)
    requires s != t && pubs.Keys == {s, t} && pubs[s] == p && pubs[t] == q
    ensures pubs == map[t := q, s := p]
  {
  }

  lemma ChainPublished(p: Publication, part: Path, tree: Tree)
    requires Chained(p, part) && tree.Keys == {part, PdfOf(part), p.source, p.target}
    ensures PublicationsIn(Config([], [p], []), tree) == ChainPublications(p, part)
  {
    assert Tracked(tree) == tree.Keys;
    CollectorExplicit(p, tree.Keys);
    ChainFound(p, part, tree.Keys);
    ChainComplete(p, part);
  }

  lemma SortedPair(s: Path, t: Path)
    requires s != t && AtMost(s, t)
    ensures SortedPaths({s, t}) == [s, t]
  {
    PathsOrdered();
    AscendingUnique(AtMost, SortedPaths({s, t}), [s, t]);
  }

  lemma AtTwo(a: Publications, s: Path, t: Path)
    requires s in a && t in a
    ensures At(a, [s, t]) == [a[s], a[t]]
  {
  }

  lemma ChainPlan(p: Publication, part: Path)
    requires Chained(p, part)
    ensures FullPlan(ChainPublications(p, part)).targets == [DirectPublication(part), p]
  {
    var a := ChainPublications(p, part);
    PayloadTargets("full-explicit", a, {}, [], map[]);
    assert a.Keys == {PdfOf(part), p.target};
    SortedPair(PdfOf(part), p.target);
    AtTwo(a, PdfOf(part), p.target);
  }

  lemma ChainTouched(p: Publication, part: Path)
    requires Chained(p, part)
    ensures Touched(DirectPublication(part), {part}) && !Touched(p, {part})
    ensures TouchedOf([DirectPublication(part), p], {part}) == [DirectPublication(part)]
  {
    PdfIsNoMarkdown(part);
    assert part in DirectPublication(part).Inputs();
    assert p.Inputs() == {PdfOf(part), p.source};
    TouchedPair(DirectPublication(part), p, {part});
  }

  lemma TouchedPair(q: Publication, p: Publication, changed: set<Path>)
    requires Touched(q, changed) && !Touched(p, changed)
    ensures TouchedOf([q, p], changed) == [q]
  {
    TouchedFirst([q, p], changed);
    TouchedFirst([p], changed);
    assert [q, p][1..] == [p] && [p][1..] == [];
    assert TouchedOf([q, p], changed) == [q] + TouchedOf([q, p], changed)[1..];
  }

  lemma ChainUpToDate(p: Publication, part: Path, x: Content, s: Content)
    requires Chained(p, part) && x != ""
    ensures AllUpToDate(Copying(), ChainTree(p, part, x, s), ChainPublications(p, part))
  {
    PdfIsNoMarkdown(part);
    DirectIsSimple(part);
    CopyUpToDate(ChainTree(p, part, x, s), DirectPublication(part));
    CopyUpToDate(ChainTree(p, part, x, s), p);
  }

  lemma BuildPair(tree: Tree, q: Publication, p: Publication)
    requires Copyable(tree, q) && Copyable(tree[q.target := tree[Quoted(q)]], p)
    ensures BuildAll(Copying(), tree, [q]) == Outcome(tree[q.target := tree[Quoted(q)]], Done)
    ensures var built := tree[q.target := tree[Quoted(q)]];
            BuildAll(Copying(), tree, [q, p]) == Outcome(built[p.target := built[Quoted(p)]], Done)
  {
    var built := tree[q.target := tree[Quoted(q)]];
    CopyBuilds(tree, q);
    CopyBuilds(built, p);
    BuildFirst(Copying(), tree, [q]);
    BuildFirst(Copying(), tree, [q, p]);
    BuildFirst(Copying(), built, [p]);
    assert [q][1..] == [] && [q, p][1..] == [p] && [p][1..] == [];
  }

  /** The document is edited: the incremental build renders its PDF and leaves the composite as it was,
      the full one makes the composite from the new PDF. */
  lemma ChainOnTrees(p: Publication, part: Path, x: Content, s: Content, y: Content, a: Publications)
    requires Chained(p, part) && x != "" && y != "" && a == ChainPublications(p, part)
    ensures var before := ChainTree(p, part, x, s);
            var after := before[part := y];
            && AllUpToDate(Copying(), before, a)
            && BuildAll(Copying(), after, RangePlan(a, a, {part}).targets) == Outcome(after[PdfOf(part) := y], Done)
            && BuildAll(Copying(), after, FullPlan(a).targets) == Outcome(after[PdfOf(part) := y][p.target := y], Done)
  {
    ChainUpToDate(p, part, x, s);
    ChainBuilds(p, part, ChainTree(p, part, x, s)[part := y]);
  }

  lemma ChainBuilds(p: Publication, part: Path, after: Tree)
    requires Chained(p, part) && after.Keys == {part, PdfOf(part), p.source, p.target} && after[part] != ""
    ensures var a, y := ChainPublications(p, part), after[part];
            && BuildAll(Copying(), after, RangePlan(a, a, {part}).targets) == Outcome(after[PdfOf(part) := y], Done)
            && BuildAll(Copying(), after, FullPlan(a).targets) == Outcome(after[PdfOf(part) := y][p.target := y], Done)
  {
    var a := ChainPublications(p, part);
    ChainPlan(p, part);
    ChainTouched(p, part);
    PlansInOrder(a, a, {part});
    DirectIsSimple(part);
    BuildPair(after, DirectPublication(part), p);
  }

  lemma ChainOwn(p: Publication, part: Path)
    requires Chained(p, part)
    ensures Writes(DirectPublication(part)) == {PdfOf(part)} && Writes(p) == {p.target}
    ensures PlainOne(DirectPublication(part), {part}) && PlainOne(p, {part})
  {
    PdfIsNoMarkdown(part);
    DirectIsSimple(part);
    assert p.dependencies[1] in p.Inputs();
  }

  lemma ChainPlain(p: Publication, part: Path, before: Tree, after: Tree)
    requires Chained(p, part) && Differences(before, after) == {part}
    ensures Plain(ChainPublications(p, part), before, after, {part}) && DisjointWrites(ChainPublications(p, part))
  {
    ChainOwn(p, part);
  }

  lemma ChainPresent(p: Publication, part: Path, x: Content, s: Content)
    requires Chained(p, part) && x != ""
    ensures Present(ChainTree(p, part, x, s), ChainPublications(p, part))
  {
    var tree := ChainTree(p, part, x, s);
    ChainOwn(p, part);
    PdfIsNoMarkdown(part);
    assert PresentOne(tree, DirectPublication(part));
    assert PresentOne(tree, p);
  }

  lemma ChainBuildable(p: Publication, part: Path, tree: Tree)
    requires Chained(p, part) && part in tree && p.source in tree
    ensures Buildable(tree, ChainPublications(p, part))
  {
  }

  lemma SameSourcesStay(config: Config, before: Tree, after: Tree, changed: set<Path>)
    requires Tracked(before) == Tracked(after)
    ensures SourcesStay(config, before, after, changed)
  {
  }

  lemma EditDiffers(before: Tree, x: Path, y: Content)
    requires x in before && before[x] != y
    ensures Differences(before, before[x := y]) == {x} && Tracked(before) == Tracked(before[x := y])
  {
  }

  lemma ChainDiffers(p: Publication, part: Path, x: Content, s: Content, y: Content)
    requires Chained(p, part) && x != y
    ensures var before := ChainTree(p, part, x, s);
            && Differences(before, before[part := y]) == {part} && Tracked(before) == Tracked(before[part := y])
            && part in before[part := y] && p.source in before[part := y]
  {
    PdfIsNoMarkdown(part);
    assert ChainTree(p, part, x, s)[part] == x;
    EditDiffers(ChainTree(p, part, x, s), part, y);
  }

  lemma ChainKeys(p: Publication, part: Path, x: Content, s: Content, y: Content)
    ensures ChainTree(p, part, x, s).Keys == {part, PdfOf(part), p.source, p.target}
    ensures ChainTree(p, part, x, s)[part := y].Keys == {part, PdfOf(part), p.source, p.target}
  {
  }

  /** Before and after the edit the publications are the document and the composite. */
  lemma ChainIn(p: Publication, part: Path, x: Content, s: Content, y: Content, a: Publications)
    requires Chained(p, part) && a == ChainPublications(p, part)
    ensures var config, before := Config([], [p], []), ChainTree(p, part, x, s);
            && config.Valid() && PublicationsIn(config, before) == a && PublicationsIn(config, before[part := y]) == a
  {
    var before := ChainTree(p, part, x, s);
    var after := before[part := y];
    ChainKeys(p, part, x, s, y);
    assert PublicationsIn(Config([], [p], []), before) == a by {
      ChainPublished(p, part, before);
    }
    assert PublicationsIn(Config([], [p], []), after) == a by {
      ChainPublished(p, part, after);
    }
    CollectorValid(p);
  }

  lemma CollectorValid(p: Publication)
    requires p.kind == Composite
    ensures Config([], [p], []).Valid()
  {
  }

  /** The range changes inputs only, everything else the exact theorem asks for holds, no target is
      taken over: it is the order that fails. */
  lemma ChainMeetsPremises(p: Publication, part: Path, x: Content, s: Content, y: Content, a: Publications)
    requires Chained(p, part) && x != "" && x != y && a == ChainPublications(p, part)
    ensures var config, before := Config([], [p], []), ChainTree(p, part, x, s);
            var after := before[part := y];
            && PublicationsIn(config, before) == a && PublicationsIn(config, after) == a
            && config.Valid() && Plain(a, before, after, {part}) && DisjointWrites(a)
            && Present(before, a) && Buildable(after, a) && SourcesStay(config, before, after, {part})
            && !Ordered(FullPlan(a).targets, {part})
  {
    var before := ChainTree(p, part, x, s);
    ChainIn(p, part, x, s, y, a);
    ChainDiffers(p, part, x, s, y);
    ChainPlain(p, part, before, before[part := y]);
    ChainPresent(p, part, x, s);
    ChainBuildable(p, part, before[part := y]);
    SameSourcesStay(Config([], [p], []), before, before[part := y], {part});
    ChainPlan(p, part);
    ChainUnordered(p, part);
  }

  lemma ChainUnordered(p: Publication, part: Path)
    requires Chained(p, part)
    ensures !Ordered([DirectPublication(part), p], {part})
  {
    var ps := [DirectPublication(part), p];
    ChainTouched(p, part);
    assert PdfOf(part) in Writes(ps[0]) && PdfOf(part) in Reads(ps[1]);
  }

  // ----- At concrete paths

  lemma Extension(stem: Path, p: Path)
    requires p == stem + ".md" && stem != "" && stem[|stem| - 1] != '/'
    ensures EndsWith(p, ".md") && PdfOf(p) == stem + ".pdf"
  {
    assert p[|p| - 3..] == ".md" && p[..|p| - 3] == stem;
    HiddenName(p);
    PdfOfMarkdown(p);
  }

  lemma ReportPdf()
    ensures EndsWith("docs/report.md", ".md") && PdfOf("docs/report.md") == "docs/report.pdf"
  {
    assert "docs/report.md" == "docs/report" + ".md" && "docs/report.pdf" == "docs/report" + ".pdf";
    Extension("docs/report", "docs/report.md");
  }

  lemma GuidePdf()
    ensures EndsWith("docs/guide.md", ".md") && PdfOf("docs/guide.md") == "docs/guide.pdf"
  {
    assert "docs/guide.md" == "docs/guide" + ".md" && "docs/guide.pdf" == "docs/guide" + ".pdf";
    Extension("docs/guide", "docs/guide.md");
  }

  /** A path of a length no infrastructure path has is none of them. */
  lemma NotInfrastructure(p: Path)
    requires |p| !in {18, 26, 30, 32, 39}
    ensures p !in INFRA_PATHS
  {
    assert |".github/workflows/docs-build.yml"| == 32;
    assert |"docs/build_pdfs.py"| == 18 && |"docs/pdf_publications.json"| == 26;
    assert |"docs/build_architecture_pdf.sh"| == 30 && |"tools/build_mlff_architecture_manual.py"| == 39;
  }

  lemma UnderDocs()
    ensures "docs/" <= "docs/report.md" && "docs/" <= "docs/report.pdf" && "docs/" <= "docs/report_v2.md"
    ensures "docs/" <= "docs/guide.md" && "docs/" <= "docs/guide.pdf"
  {
  }

  lemma Lengths()
    ensures |"docs/report.md"| == 14 && |"docs/report.pdf"| == 15 && |"docs/report_v2.md"| == 17
    ensures |"docs/guide.md"| == 13 && |"docs/guide.pdf"| == 14
  {
  }

  lemma ReportTakeover()
    ensures TakeoverPaths("docs/report_v2.md", "docs/report.md")
  {
    ReportPdf();
    UnderDocs();
    Lengths();
    NotInfrastructure("docs/report_v2.md");
  }

  lemma ReportAndGuide()
    ensures Pairs("docs/report.md", "docs/guide.md")
  {
    ReportPdf();
    GuidePdf();
    UnderDocs();
    Lengths();
    NotInfrastructure("docs/report.md");
  }

  /** docs/report.md is edited, docs/guide.md is not. */
  lemma EditExample()
    ensures var before := TwoDocuments("docs/report.md", "docs/guide.md", "old report", "guide");
            Ready(Copying(), NO_CONFIG, before, before["docs/report.md" := "new report"], {"docs/report.md"})
  {
    ReportAndGuide();
    assert |"old report"| == 10 && |"guide"| == 5;
    EditIsReady("docs/report.md", "docs/guide.md", "old report", "guide", "new report");
  }

  /** docs/report.pdf is declared to come from docs/report_v2.md, which is removed: the incremental
      build keeps showing "v2", the full build shows docs/report.md. */
  lemma TakeoverExample(b: Publications, a: Publications)
    requires var config, tree := Takeover("docs/report_v2.md", PdfOf("docs/report.md")),
                                 TakeoverTree("docs/report_v2.md", "docs/report.md", "v2", "report");
             b == PublicationsIn(config, tree) && a == PublicationsIn(config, tree - {"docs/report_v2.md"})
    ensures PdfOf("docs/report.md") == "docs/report.pdf"
    ensures var tree := TakeoverTree("docs/report_v2.md", "docs/report.md", "v2", "report");
            && AllUpToDate(Copying(), tree, b)
            && Ends(b, a, tree - {"docs/report_v2.md"}, {"docs/report_v2.md"}, PdfOf("docs/report.md"), "v2", "report")
  {
    ReportPdf();
    ReportTakeover();
    assert |"v2"| == 2 && |"report"| == 6;
    TakeoverOnTrees("docs/report_v2.md", "docs/report.md", "v2", "report", b, a);
  }

  lemma CollectsExample()
    ensures Collects(Publication("book", "docs/book.md", "docs/book.pdf", ["docs/report.pdf"],
                                 ["python", "tools/collect.py"], [], "", Composite), "docs/report.md")
  {
    ReportPdf();
    Lengths();
    NotInfrastructure("docs/report.md");
    assert "docs/report.pdf" in ["docs/report.pdf"];
    assert |"docs/book.md"| == 12 && |"docs/book.pdf"| == 13;
  }

  /** docs/zbook.pdf is made from docs/report.pdf. */
  lemma ChainExample()
    ensures Chained(Publication("zbook", "docs/zbook.md", "docs/zbook.pdf", ["docs/report.pdf", "docs/zbook.md"],
                                [], [], "", Composite), "docs/report.md")
  {
    ReportPdf();
    UnderDocs();
    Lengths();
    NotInfrastructure("docs/report.md");
    ZbookPaths();
    ReportFirst();
  }

  lemma ZbookPaths()
    ensures EndsWith("docs/zbook.md", ".md") && !EndsWith("docs/zbook.pdf", ".md")
    ensures "docs/" <= "docs/zbook.md" && "docs/" <= "docs/zbook.pdf"
    ensures |"docs/zbook.md"| == 13 && |"docs/zbook.pdf"| == 14
  {
    assert "docs/zbook.md"[10..] == ".md";
    assert "docs/zbook.pdf"[13] == 'f' && "docs/zbook.pdf"[11..][2] == 'f' && ".md"[2] == 'd';
  }

  lemma ReportFirst()
    ensures AtMost("docs/report.pdf", "docs/zbook.pdf")
  {
    assert "docs/report.pdf" == "docs/" + "report.pdf" && "docs/zbook.pdf" == "docs/" + "zbook.pdf";
    assert "report.pdf"[0] == 'r' && "zbook.pdf"[0] == 'z';
    SameStart("docs/", "report.pdf", "zbook.pdf");
  }

  lemma AddedExample()
    ensures EndsWith("docs/report.md", ".md") && "docs/" <= "docs/report.md" && "docs/" <= PdfOf("docs/report.md")
    ensures PdfOf("docs/report.md") !in INFRA_PATHS
  {
    ReportPdf();
    UnderDocs();
    Lengths();
    NotInfrastructure("docs/report.pdf");
  }
}

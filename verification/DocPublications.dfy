/** The publications of a Git tree (publications_at of docs/build_pdfs.py): explicit declarations
    of the configuration, then every tracked X.md with a tracked X.pdf beside it. */
module DocPublications {
  import opened Counting
  import opened DocPaths

  /** `manifest` and the targets of the configuration are "" where the JSON has none. */
  datatype Kind = Direct | DirectExplicit | Composite

  datatype Publication = Publication(
    id: string,
    source: Path,
    target: Path,
    dependencies: seq<Path>,
    assembler: seq<string>,
    generated: seq<Path>,
    manifest: Path,
    kind: Kind)
  {
    function Inputs(): set<Path> {
      if dependencies == [] then {source} else set p | p in dependencies
    }

    function Outputs(): set<Path> {
      {target} + (set p | p in generated) + if manifest != "" then {manifest} else {}
    }
  }

  datatype Pair = Pair(source: Path, target: Path) {
    function Target(): Path { if target != "" then target else PdfOf(source) }
  }

  datatype DirectEntry = DirectEntry(id: string, pair: Pair, dependencies: seq<Path>)

  datatype Config = Config(direct: seq<DirectEntry>, composite: seq<Publication>, manual: seq<Pair>) {
    ghost predicate Valid() {
      forall p :: p in composite ==> p.kind == Composite
    }
  }

  function ExplicitDirect(e: DirectEntry): Publication {
    Publication(if e.id != "" then e.id else e.pair.Target(), e.pair.source, e.pair.Target(),
                if e.dependencies == [] then [e.pair.source] else e.dependencies, [], [], "", DirectExplicit)
  }

  /** _explicit_publications: the direct declarations first. */
  function Explicit(config: Config): (r: seq<Publication>)
    ensures forall p :: p in r ==>
              || p in config.composite
              || (p.kind == DirectExplicit && p.generated == [] && p.manifest == "" && p.assembler == [])
  {
    seq(|config.direct|, i requires 0 <= i < |config.direct| => ExplicitDirect(config.direct[i])) + config.composite
  }

  /** Publications by target: of two declarations for one target the later counts. */
  function ByTarget(ps: seq<Publication>): (m: map<Path, Publication>)
    ensures forall t :: t in m ==> m[t] in ps && m[t].target == t
    ensures forall p :: p in ps ==> p.target in m
  {
    if ps == [] then map[]
    else ByTarget(ps[..|ps| - 1])[ps[|ps| - 1].target := ps[|ps| - 1]]
  }

  /** A composite is there at every ref, a direct declaration where its source is tracked. */
  predicate Kept(p: Publication, paths: set<Path>) { p.kind == Composite || p.source in paths }

  function Filter(ps: seq<Publication>, paths: set<Path>): (r: seq<Publication>)
    ensures forall p :: p in r <==> p in ps && Kept(p, paths)
  {
    if ps == [] then []
    else
      var last := ps[|ps| - 1];
      var rest := Filter(ps[..|ps| - 1], paths);
      if Kept(last, paths) then rest + [last] else rest
  }

  function ExplicitAt(config: Config, paths: set<Path>): (m: map<Path, Publication>)
    ensures forall t :: t in m ==>
              m[t].target == t && m[t] in Explicit(config) && Kept(m[t], paths)
    ensures forall p :: p in Explicit(config) && Kept(p, paths) ==> p.target in m
  {
    ByTarget(Filter(Explicit(config), paths))
  }

  function ManualSources(config: Config): set<Path> { set m | m in config.manual :: m.source }

  function ManualTargets(config: Config): set<Path> { set m | m in config.manual :: m.Target() }

  function ReservedSources(config: Config): set<Path> {
    (set p | p in Explicit(config) && p.kind == Composite :: p.source) + ManualSources(config)
  }

  function DirectPublication(source: Path): Publication {
    Publication(PdfOf(source), source, PdfOf(source), [source], [], [], "", Direct)
  }

  /** The file is a source the autodiscovery pairs with its tracked PDF. */
  predicate Discovered(config: Config, paths: set<Path>, source: Path) {
    && source in paths && EndsWith(source, ".md") && source !in ReservedSources(config)
    && PdfOf(source) !in ManualTargets(config) && PdfOf(source) in paths
  }

  function DiscoveredSources(config: Config, paths: set<Path>): set<Path> {
    set s | s in paths && Discovered(config, paths, s)
  }

  function Claimants(discovered: set<Path>, target: Path): set<Path> {
    set s | s in discovered && PdfOf(s) == target
  }

  function FirstClaimant(discovered: set<Path>, target: Path): (s: Path)
    requires Claimants(discovered, target) != {}
    ensures s in discovered && PdfOf(s) == target
    ensures forall q :: q in discovered && PdfOf(q) == target ==> AtMost(s, q)
  {
    var sorted := SortedPaths(Claimants(discovered, target));
    assert sorted[0] in sorted;
    PathsOrdered();
    assert forall q :: q in sorted ==> AtMost(sorted[0], q);
    sorted[0]
  }

  function ClaimedTargets(discovered: set<Path>): (r: set<Path>)
    ensures forall t :: t in r ==> Claimants(discovered, t) != {}
    ensures forall s :: s in discovered ==> PdfOf(s) in r
  {
    assert forall s :: s in discovered ==> s in Claimants(discovered, PdfOf(s));
    set s | s in discovered :: PdfOf(s)
  }

  /** The explicit declarations, completed by the first source in sorted order that claims a target. */
  function Complete(explicit: map<Path, Publication>, discovered: set<Path>): (m: map<Path, Publication>)
    ensures forall t :: t in m <==> t in explicit || t in ClaimedTargets(discovered)
  {
    map t | t in explicit.Keys + ClaimedTargets(discovered) ::
      if t in explicit then explicit[t] else DirectPublication(FirstClaimant(discovered, t))
  }

  /** publications_at. */
  function PublicationsAt(config: Config, paths: set<Path>): (m: map<Path, Publication>)
    ensures forall t :: t in m ==> m[t].target == t
  {
    Complete(ExplicitAt(config, paths), DiscoveredSources(config, paths))
  }

  // ----- The function as written: one pass over the sorted Markdown paths

  /** sources[k] is the first of the list to claim t. */
  ghost predicate FirstClaim(discovered: set<Path>, sources: seq<Path>, k: nat, t: Path)
    requires k < |sources|
  {
    && sources[k] in discovered && PdfOf(sources[k]) == t
    && forall j :: 0 <= j < k && sources[j] in discovered ==> PdfOf(sources[j]) != t
  }

  /** What the loop has found after the first `done` of the sorted sources. */
  ghost predicate FoundSoFar(explicit: map<Path, Publication>, discovered: set<Path>, sources: seq<Path>, done: nat,
                             m: map<Path, Publication>)
    requires done <= |sources|
  {
    && (forall t :: t in explicit ==> t in m && m[t] == explicit[t])
    && (forall k :: 0 <= k < done && sources[k] in discovered ==> PdfOf(sources[k]) in m)
    && (forall t :: t in m && t !in explicit ==> ClaimedBy(discovered, sources, done, m[t], t))
  }

  ghost predicate ClaimedBy(discovered: set<Path>, sources: seq<Path>, done: nat, p: Publication, t: Path)
    requires done <= |sources|
  {
    exists k :: 0 <= k < done && FirstClaim(discovered, sources, k, t) && p == DirectPublication(sources[k])
  }

  lemma FirstClaimIsLeast(discovered: set<Path>, sources: seq<Path>, k: nat, t: Path)
    requires Ascending(AtMost, sources) && k < |sources| && FirstClaim(discovered, sources, k, t)
    requires forall s :: s in discovered ==> s in sources
    ensures Claimants(discovered, t) != {} && FirstClaimant(discovered, t) == sources[k]
  {
    assert sources[k] in Claimants(discovered, t);
    var least := FirstClaimant(discovered, t);
    var j :| 0 <= j < |sources| && sources[j] == least;
    assert j >= k;
    PathsOrdered();
  }

  lemma ClaimedIsComplete(discovered: set<Path>, sources: seq<Path>, p: Publication, t: Path)
    requires Ascending(AtMost, sources) && forall s :: s in discovered ==> s in sources
    requires ClaimedBy(discovered, sources, |sources|, p, t)
    ensures Claimants(discovered, t) != {} && t in ClaimedTargets(discovered)
    ensures p == DirectPublication(FirstClaimant(discovered, t))
  {
    var k :| 0 <= k < |sources| && FirstClaim(discovered, sources, k, t) && p == DirectPublication(sources[k]);
    FirstClaimIsLeast(discovered, sources, k, t);
  }

  lemma CompleteIsFound(explicit: map<Path, Publication>, discovered: set<Path>, sources: seq<Path>,
                        m: map<Path, Publication>, t: Path)
    requires forall s :: s in discovered ==> s in sources
    requires FoundSoFar(explicit, discovered, sources, |sources|, m) && t in Complete(explicit, discovered)
    ensures t in m
  {
    if t !in explicit {
      var s := FirstClaimant(discovered, t);
      var k :| 0 <= k < |sources| && sources[k] == s;
      assert sources[k] in discovered;
    }
  }

  lemma FoundAgrees(explicit: map<Path, Publication>, discovered: set<Path>, sources: seq<Path>,
                    m: map<Path, Publication>, t: Path)
    requires Ascending(AtMost, sources) && forall s :: s in discovered ==> s in sources
    requires FoundSoFar(explicit, discovered, sources, |sources|, m) && t in m
    ensures t in Complete(explicit, discovered) && m[t] == Complete(explicit, discovered)[t]
  {
    if t !in explicit {
      ClaimedIsComplete(discovered, sources, m[t], t);
    }
  }

  lemma SameMap<K, V>(m: map<K, V>, n: map<K, V>)
    requires (forall k :: k in m ==> k in n && m[k] == n[k]) && (forall k :: k in n ==> k in m)
    ensures m == n
  {
  }

  lemma AllFound(explicit: map<Path, Publication>, discovered: set<Path>, sources: seq<Path>, m: map<Path, Publication>)
    requires Ascending(AtMost, sources) && forall s :: s in discovered ==> s in sources
    requires FoundSoFar(explicit, discovered, sources, |sources|, m)
    ensures m == Complete(explicit, discovered)
  {
    var r := Complete(explicit, discovered);
    forall t | t in r ensures t in m {
      CompleteIsFound(explicit, discovered, sources, m, t);
    }
    forall t | t in m ensures t in r && m[t] == r[t] {
      FoundAgrees(explicit, discovered, sources, m, t);
    }
    SameMap(m, r);
  }

  /** One turn of the loop. */
  lemma FoundOneMore(explicit: map<Path, Publication>, discovered: set<Path>, sources: seq<Path>, k: nat,
                     m: map<Path, Publication>, m': map<Path, Publication>)
    requires k < |sources| && FoundSoFar(explicit, discovered, sources, k, m)
    requires var t := PdfOf(sources[k]);
             m' == if sources[k] in discovered && t !in m then m[t := DirectPublication(sources[k])] else m
    ensures FoundSoFar(explicit, discovered, sources, k + 1, m')
  {
    forall t | t in m' && t !in explicit ensures ClaimedBy(discovered, sources, k + 1, m'[t], t) {
      if t in m {
        var j :| 0 <= j < k && FirstClaim(discovered, sources, j, t) && m[t] == DirectPublication(sources[j]);
        assert m'[t] == m[t];
      } else {
        assert FirstClaim(discovered, sources, k, t);
      }
    }
  }

  method PublicationsOf(config: Config, paths: set<Path>) returns (byTarget: map<Path, Publication>)
    ensures byTarget == PublicationsAt(config, paths)
  {
    var manualTargets := ManualTargets(config);
    var reserved := ReservedSources(config);
    ghost var explicit := ExplicitAt(config, paths);
    byTarget := ExplicitAt(config, paths);
    var sources := SortedPaths(set p | p in paths && EndsWith(p, ".md"));
    ghost var discovered := DiscoveredSources(config, paths);
    for k := 0 to |sources|
      invariant FoundSoFar(explicit, discovered, sources, k, byTarget)
    {
      var source := sources[k];
      assert source in sources;
      ghost var was := byTarget;
      var target := PdfOf(source);
      assert source in discovered <==> source !in reserved && target !in manualTargets && target in paths;
      if source !in reserved && target !in manualTargets {
        if target in paths && target !in byTarget {
          byTarget := byTarget[target := DirectPublication(source)];
        }
      }
      FoundOneMore(explicit, discovered, sources, k, was, byTarget);
    }
    AllFound(explicit, discovered, sources, byTarget);
  }

  // ----- What stays published

  lemma OnlyTheTarget(p: Publication)
    requires p.generated == [] && p.manifest == ""
    ensures p.Outputs() == {p.target}
  {
  }

  lemma PublishedKinds(config: Config, paths: set<Path>, target: Path)
    requires target in PublicationsAt(config, paths)
    ensures var p := PublicationsAt(config, paths)[target];
            p in config.composite || (p.kind != Composite && p.generated == [] && p.manifest == "" && p.assembler == [])
  {
  }

  /** A composite publication is there at every ref, and only composites have outputs beside the target. */
  lemma CompositesAlwaysPublished(config: Config, before: set<Path>, after: set<Path>, target: Path)
    requires config.Valid() && target in PublicationsAt(config, before) && target !in PublicationsAt(config, after)
    ensures var p := PublicationsAt(config, before)[target]; p.Outputs() == {target} && p.assembler == []
  {
    var p := PublicationsAt(config, before)[target];
    PublishedKinds(config, before, target);
    assert p in config.composite ==> p in Explicit(config) && p.target in ExplicitAt(config, after);
    if p !in config.composite {
      OnlyTheTarget(p);
    }
  }

  lemma SourceTracked(config: Config, paths: set<Path>, target: Path)
    requires target in PublicationsAt(config, paths)
    ensures Kept(PublicationsAt(config, paths)[target], paths)
  {
  }

  /** A target is published again as long as its source and, for an autodiscovered pair, the PDF
      are still tracked; a composite is published anyway. */
  lemma StillPublished(config: Config, before: set<Path>, after: set<Path>, target: Path)
    requires target in PublicationsAt(config, before)
    requires var p := PublicationsAt(config, before)[target]; p.source in before ==> p.source in after
    requires target in before ==> target in after
    ensures target in PublicationsAt(config, after)
  {
    var p := PublicationsAt(config, before)[target];
    SourceTracked(config, before, target);
    if target in ExplicitAt(config, before) {
      assert p in Explicit(config) && p.target in ExplicitAt(config, after);
    } else {
      assert p.source == FirstClaimant(DiscoveredSources(config, before), target);
      assert p.source in DiscoveredSources(config, after);
    }
  }

  // ----- When a target keeps its publication

  /** Of the declarations of a target the last one that is kept counts; if the one that counts before
      is kept after and the other way round, it is the same one. */
  lemma {:induction false} SameLastKept(ps: seq<Publication>, before: set<Path>, after: set<Path>, t: Path)
    requires t in ByTarget(Filter(ps, before)) && t in ByTarget(Filter(ps, after))
    requires Kept(ByTarget(Filter(ps, before))[t], after) && Kept(ByTarget(Filter(ps, after))[t], before)
    ensures ByTarget(Filter(ps, before))[t] == ByTarget(Filter(ps, after))[t]
  {
    var k := |ps| - 1;
    var last, front := ps[k], ps[..k];
    ByTargetLast(ps, before, t);
    ByTargetLast(ps, after, t);
    if !(last.target == t && (Kept(last, before) || Kept(last, after))) {
      SameLastKept(front, before, after, t);
    }
  }

  lemma ByTargetLast(ps: seq<Publication>, paths: set<Path>, t: Path)
    requires t in ByTarget(Filter(ps, paths))
    ensures ps != []
    ensures var last, front := ps[|ps| - 1], ps[..|ps| - 1];
            if Kept(last, paths) && last.target == t then ByTarget(Filter(ps, paths))[t] == last
            else
              && t in ByTarget(Filter(front, paths))
              && ByTarget(Filter(ps, paths))[t] == ByTarget(Filter(front, paths))[t]
  {
    var last, rest := ps[|ps| - 1], Filter(ps[..|ps| - 1], paths);
    if Kept(last, paths) {
      assert (rest + [last])[..|rest + [last]| - 1] == rest;
    }
  }

  /** A target published at both ends, itself and its later source tracked at both or at neither. */
  ghost predicate SteadyTarget(config: Config, before: set<Path>, after: set<Path>, t: Path) {
    && t in PublicationsAt(config, before) && t in PublicationsAt(config, after)
    && (t in before <==> t in after)
    && (PublicationsAt(config, after)[t].source in before <==> PublicationsAt(config, after)[t].source in after)
  }

  lemma SameExplicit(config: Config, before: set<Path>, after: set<Path>, t: Path)
    requires SteadyTarget(config, before, after, t) && t in ExplicitAt(config, before)
    requires var p := PublicationsAt(config, before)[t]; p.source in before ==> p.source in after
    ensures PublicationsAt(config, before)[t] == PublicationsAt(config, after)[t]
  {
    var p := ExplicitAt(config, before)[t];
    assert p in Explicit(config) && p.target in ExplicitAt(config, after);
    SameLastKept(Explicit(config), before, after, t);
  }

  lemma NotExplicit(config: Config, before: set<Path>, after: set<Path>, t: Path)
    requires SteadyTarget(config, before, after, t) && t !in ExplicitAt(config, before)
    ensures t !in ExplicitAt(config, after)
  {
    assert forall p :: p in Explicit(config) && p.target == t ==> !Kept(p, before);
  }

  lemma DiscoveredAgain(config: Config, paths: set<Path>, t: Path)
    requires t in PublicationsAt(config, paths) && t !in ExplicitAt(config, paths)
    ensures var p, found := PublicationsAt(config, paths)[t], DiscoveredSources(config, paths);
            && Claimants(found, t) != {} && p == DirectPublication(FirstClaimant(found, t))
            && p.source == FirstClaimant(found, t)
  {
  }

  lemma SameDiscovered(config: Config, before: set<Path>, after: set<Path>, t: Path)
    requires SteadyTarget(config, before, after, t) && t !in ExplicitAt(config, before)
    requires var p := PublicationsAt(config, before)[t]; p.source in before ==> p.source in after
    ensures PublicationsAt(config, before)[t] == PublicationsAt(config, after)[t]
  {
    NotExplicit(config, before, after, t);
    DiscoveredAgain(config, before, t);
    DiscoveredAgain(config, after, t);
    var earlier := FirstClaimant(DiscoveredSources(config, before), t);
    var later := FirstClaimant(DiscoveredSources(config, after), t);
    assert earlier in DiscoveredSources(config, after) && later in DiscoveredSources(config, before);
    PathsOrdered();
  }

  /** A target keeps its publication exactly when the source it had stays tracked. */
  lemma SamePublication(config: Config, before: set<Path>, after: set<Path>, t: Path)
    requires SteadyTarget(config, before, after, t)
    ensures var p := PublicationsAt(config, before)[t];
            p == PublicationsAt(config, after)[t] <==> (p.source in before ==> p.source in after)
  {
    var p := PublicationsAt(config, before)[t];
    if p.source in before ==> p.source in after {
      if t in ExplicitAt(config, before) {
        SameExplicit(config, before, after, t);
      } else {
        SameDiscovered(config, before, after, t);
      }
    }
  }

  // ----- Which publications there are, said of the configuration

  /** A tracked Markdown file with its tracked PDF that no composite and no manual entry claims. */
  ghost predicate Free(config: Config, paths: set<Path>, source: Path, t: Path) {
    && source in paths && t in paths && EndsWith(source, ".md") && PdfOf(source) == t
    && (forall c :: c in config.composite ==> c.source != source)
    && forall m :: m in config.manual ==>
         m.source != source && (if m.target != "" then m.target else PdfOf(m.source)) != t
  }

  lemma FreeIsDiscovered(config: Config, paths: set<Path>, source: Path)
    requires config.Valid()
    ensures source in DiscoveredSources(config, paths) <==> Free(config, paths, source, PdfOf(source))
  {
    forall c | c in config.composite ensures c in Explicit(config) {
    }
    if source in DiscoveredSources(config, paths) {
      forall m | m in config.manual ensures m.source != source && m.Target() != PdfOf(source) {
        assert m.source in ManualSources(config) && m.Target() in ManualTargets(config);
      }
    }
  }

  /** Beside the declarations, exactly the targets of free files are published, each for the first such
      file in sorted order; manual sources and targets are left alone. */
  lemma FreeExactly(config: Config, paths: set<Path>, t: Path)
    requires config.Valid() && t !in ExplicitAt(config, paths)
    ensures t in PublicationsAt(config, paths) <==> exists s :: Free(config, paths, s, t)
    ensures t in PublicationsAt(config, paths) ==>
              var p := PublicationsAt(config, paths)[t];
              && Free(config, paths, p.source, t) && p == DirectPublication(p.source)
              && forall s :: Free(config, paths, s, t) ==> AtMost(p.source, s)
  {
    var found := DiscoveredSources(config, paths);
    if s :| Free(config, paths, s, t) {
      FreeIsDiscovered(config, paths, s);
      assert PdfOf(s) in ClaimedTargets(found);
    }
    if t in PublicationsAt(config, paths) {
      DiscoveredAgain(config, paths, t);
      FreeIsDiscovered(config, paths, FirstClaimant(found, t));
      forall s | Free(config, paths, s, t) ensures AtMost(FirstClaimant(found, t), s) {
        FreeIsDiscovered(config, paths, s);
      }
    }
  }

  /** What is not declared leaves every manual entry alone. */
  lemma ManualLeftAlone(config: Config, paths: set<Path>, t: Path, m: Pair)
    requires config.Valid() && m in config.manual
    requires t in PublicationsAt(config, paths) && t !in ExplicitAt(config, paths)
    ensures PublicationsAt(config, paths)[t].source != m.source
    ensures t != if m.target != "" then m.target else PdfOf(m.source)
  {
    FreeExactly(config, paths, t);
  }

  lemma KeptIsFiltered(ps: seq<Publication>, paths: set<Path>, i: nat)
    requires i < |ps| && Kept(ps[i], paths)
    ensures ps[i].target in ByTarget(Filter(ps, paths))
  {
    assert ps[i] in Filter(ps, paths);
  }

  /** Among the declarations p is the one that counts for its target. */
  predicate CountsIn(p: Publication, ps: seq<Publication>, paths: set<Path>) {
    var kept := ByTarget(Filter(ps, paths));
    p.target in kept && kept[p.target] == p
  }

  lemma CountsAtTheEnd(p: Publication, ps: seq<Publication>, paths: set<Path>)
    requires ps != [] && ps[|ps| - 1] == p && Kept(p, paths)
    ensures CountsIn(p, ps, paths)
  {
    KeptIsFiltered(ps, paths, |ps| - 1);
    ByTargetLast(ps, paths, p.target);
  }

  lemma CountsStill(p: Publication, ps: seq<Publication>, paths: set<Path>)
    requires p in ps && Kept(p, paths) && CountsIn(p, ps[..|ps| - 1], paths)
    requires ps[|ps| - 1].target == p.target ==> !Kept(ps[|ps| - 1], paths)
    ensures CountsIn(p, ps, paths)
  {
    var i :| 0 <= i < |ps| && ps[i] == p;
    KeptIsFiltered(ps, paths, i);
    ByTargetLast(ps, paths, p.target);
  }

  lemma {:induction false} LastKept(ps: seq<Publication>, paths: set<Path>, i: nat)
    requires i < |ps| && Kept(ps[i], paths)
    requires forall j :: i < j < |ps| && ps[j].target == ps[i].target ==> !Kept(ps[j], paths)
    ensures CountsIn(ps[i], ps, paths)
    decreases |ps|
  {
    if i == |ps| - 1 {
      CountsAtTheEnd(ps[i], ps, paths);
    } else {
      LastKept(ps[..|ps| - 1], paths, i);
      CountsStill(ps[i], ps, paths);
    }
  }

  lemma ComposedAt(config: Config, i: nat)
    requires i < |config.composite|
    ensures |Explicit(config)| == |config.direct| + |config.composite|
    ensures Explicit(config)[|config.direct| + i] == config.composite[i]
  {
  }

  lemma CompositeIsLast(config: Config, paths: set<Path>, i: nat)
    requires config.Valid() && i < |config.composite|
    requires forall j :: i < j < |config.composite| ==> config.composite[j].target != config.composite[i].target
    ensures CountsIn(config.composite[i], Explicit(config), paths)
  {
    var k, p := |config.direct| + i, config.composite[i];
    ComposedAt(config, i);
    assert Kept(p, paths) by {
      assert p in config.composite;
    }
    forall j | k < j < |Explicit(config)| ensures Explicit(config)[j].target != p.target {
      ComposedAt(config, j - |config.direct|);
    }
    LastCounts(p, Explicit(config), paths, k);
  }

  lemma LastCounts(p: Publication, ps: seq<Publication>, paths: set<Path>, k: nat)
    requires k < |ps| && ps[k] == p && Kept(p, paths) && forall j :: k < j < |ps| ==> ps[j].target != p.target
    ensures CountsIn(p, ps, paths)
  {
    LastKept(ps, paths, k);
  }

  /** A composite is published as declared at every ref, whatever else claims its target, unless a
      later composite does. */
  lemma CompositeCounts(config: Config, paths: set<Path>, i: nat)
    requires config.Valid() && i < |config.composite|
    requires forall j :: i < j < |config.composite| ==> config.composite[j].target != config.composite[i].target
    ensures CountsAt(config.composite[i], config, paths)
  {
    CompositeIsLast(config, paths, i);
    DeclaredCounts(config.composite[i], config, paths);
  }

  predicate CountsAt(p: Publication, config: Config, paths: set<Path>) {
    var published := PublicationsAt(config, paths);
    p.target in published && published[p.target] == p
  }

  lemma DeclaredCounts(p: Publication, config: Config, paths: set<Path>)
    requires CountsIn(p, Explicit(config), paths)
    ensures CountsAt(p, config, paths)
  {
  }

  /** No declaration after the i-th direct one counts for t. */
  ghost predicate LastDirect(config: Config, paths: set<Path>, i: nat, t: Path)
    requires i < |config.direct|
  {
    && (forall c :: c in config.composite ==> c.target != t)
    && forall j :: i < j < |config.direct| && config.direct[j].pair.Target() == t ==>
         config.direct[j].pair.source !in paths
  }

  lemma DirectAt(config: Config, i: nat)
    requires i < |config.direct|
    ensures i < |Explicit(config)| && Explicit(config)[i] == ExplicitDirect(config.direct[i])
  {
  }

  lemma NoLaterKept(config: Config, paths: set<Path>, i: nat, t: Path, j: nat)
    requires i < |config.direct| && LastDirect(config, paths, i, t)
    requires i < j < |Explicit(config)| && Explicit(config)[j].target == t
    ensures !Kept(Explicit(config)[j], paths)
  {
    if j < |config.direct| {
      DirectAt(config, j);
    } else {
      ComposedAt(config, j - |config.direct|);
    }
  }

  lemma DirectIsLast(config: Config, paths: set<Path>, i: nat, t: Path)
    requires i < |config.direct| && config.direct[i].pair.source in paths && config.direct[i].pair.Target() == t
    requires LastDirect(config, paths, i, t)
    ensures t in ExplicitAt(config, paths) && ExplicitAt(config, paths)[t] == ExplicitDirect(config.direct[i])
  {
    DirectAt(config, i);
    forall j | i < j < |Explicit(config)| && Explicit(config)[j].target == t ensures !Kept(Explicit(config)[j], paths) {
      NoLaterKept(config, paths, i, t, j);
    }
    LastKept(Explicit(config), paths, i);
  }

  lemma DirectMeans(e: DirectEntry)
    ensures var p := ExplicitDirect(e);
            && p.source == e.pair.source && p.assembler == [] && p.Outputs() == {p.target}
            && p.Inputs() == if e.dependencies == [] then {e.pair.source} else set d | d in e.dependencies
  {
  }

  /** A direct declaration with a tracked source is published with the declared inputs, by default its
      source, and its target as only output, unless a composite or a later direct declaration with a
      tracked source claims the target. */
  lemma DirectCounts(config: Config, paths: set<Path>, i: nat, t: Path)
    requires i < |config.direct| && config.direct[i].pair.source in paths && LastDirect(config, paths, i, t)
    requires var pair := config.direct[i].pair; t == if pair.target != "" then pair.target else PdfOf(pair.source)
    ensures t in PublicationsAt(config, paths)
    ensures var e, p := config.direct[i], PublicationsAt(config, paths)[t];
            && p.source == e.pair.source && p.target == t && p.assembler == [] && p.Outputs() == {t}
            && p.Inputs() == if e.dependencies == [] then {e.pair.source} else set d | d in e.dependencies
  {
    DirectIsLast(config, paths, i, t);
    DirectMeans(config.direct[i]);
  }
}

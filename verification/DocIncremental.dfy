/** The incremental build of docs/build_pdfs.py against the full rebuild. */
module DocIncremental {
  import opened Counting
  import opened DocPaths
  import opened DocPublications
  import opened DocPlan
  import opened DocBuild
  import opened DocSteady

  /** `git ls-tree -r --name-only ref -- docs`. */
  function Tracked(tree: Tree): set<Path> { set x | x in tree && "docs/" <= x }

  function PublicationsIn(config: Config, tree: Tree): Publications { PublicationsAt(config, Tracked(tree)) }

  /** Every path whose content differs is among the changed ones. */
  ghost predicate Covers(changed: set<Path>, before: Tree, after: Tree) {
    forall x :: x !in changed ==> Agree(before, after, {x})
  }

  /** A publication the range did not touch, and whose files it did not touch either, was published
      before: nothing becomes a publication behind the planner's back. */
  lemma UntouchedWasPublished(config: Config, before: Tree, after: Tree, changed: set<Path>, t: Path)
    requires Covers(changed, before, after) && t in PublicationsIn(config, after)
    requires !Touched(PublicationsIn(config, after)[t], changed) && t !in changed
    ensures t in PublicationsIn(config, before)
  {
    UnchangedTracked(changed, before, after, t);
    UnchangedTracked(changed, before, after, PublicationsIn(config, after)[t].source);
    StillPublished(config, Tracked(after), Tracked(before), t);
  }

  lemma UnchangedTracked(changed: set<Path>, before: Tree, after: Tree, x: Path)
    requires Covers(changed, before, after) && x !in changed
    ensures x in Tracked(before) <==> x in Tracked(after)
  {
    assert Agree(before, after, {x});
  }

  /** No two publications write the same file. */
  ghost predicate DisjointWrites(pubs: Publications) {
    forall s, t :: s in pubs && t in pubs && s != t ==> Writes(pubs[s]) !! Writes(pubs[t])
  }

  // ----- The incremental plan is the full one without the untouched publications

  function At(pubs: Publications, keys: seq<Path>): (r: seq<Publication>)
    requires forall k :: k in keys ==> k in pubs
    ensures |r| == |keys| && forall i :: 0 <= i < |keys| ==> keys[i] in keys && r[i] == pubs[keys[i]]
  {
    seq(|keys|, i requires 0 <= i < |keys| => assert keys[i] in keys; pubs[keys[i]])
  }

  function TouchedKeys(pubs: Publications, keys: seq<Path>, changed: set<Path>): (r: seq<Path>)
    requires forall k :: k in keys ==> k in pubs
    ensures forall k :: k in r <==> k in keys && Touched(pubs[k], changed)
  {
    if keys == [] then []
    else
      TailElements(keys);
      (if Touched(pubs[keys[0]], changed) then [keys[0]] else []) + TouchedKeys(pubs, keys[1..], changed)
  }

  lemma AtTail(pubs: Publications, keys: seq<Path>)
    requires keys != [] && forall k :: k in keys ==> k in pubs
    ensures (forall k :: k in keys[1..] ==> k in pubs) && At(pubs, keys)[1..] == At(pubs, keys[1..])
  {
    TailElements(keys);
  }

  lemma AtHead(pubs: Publications, key: Path, keys: seq<Path>)
    requires key in pubs && forall k :: k in keys ==> k in pubs
    ensures At(pubs, [key] + keys) == [pubs[key]] + At(pubs, keys)
  {
  }

  lemma {:induction false} TouchedAt(pubs: Publications, keys: seq<Path>, changed: set<Path>)
    requires forall k :: k in keys ==> k in pubs
    ensures TouchedOf(At(pubs, keys), changed) == At(pubs, TouchedKeys(pubs, keys, changed))
  {
    if keys != [] {
      AtTail(pubs, keys);
      TouchedAt(pubs, keys[1..], changed);
      AtHead(pubs, keys[0], TouchedKeys(pubs, keys[1..], changed));
    }
  }

  lemma {:induction false} TouchedAscending(pubs: Publications, keys: seq<Path>, changed: set<Path>)
    requires (forall k :: k in keys ==> k in pubs) && Ascending(AtMost, keys)
    ensures Ascending(AtMost, TouchedKeys(pubs, keys, changed))
  {
    if keys != [] {
      TailElements(keys);
      TouchedAscending(pubs, keys[1..], changed);
      var rest := TouchedKeys(pubs, keys[1..], changed);
      forall j | 0 <= j < |rest| ensures AtMost(keys[0], rest[j]) && keys[0] != rest[j] {
        assert rest[j] in keys[1..];
      }
    }
  }

  lemma SelectedKeys(a: Publications, changed: set<Path>)
    ensures TouchedKeys(a, SortedPaths(a.Keys), changed) == SortedPaths(Selected(a, changed).Keys)
  {
    var keys, selected := TouchedKeys(a, SortedPaths(a.Keys), changed), SortedPaths(Selected(a, changed).Keys);
    PathsOrdered();
    TouchedAscending(a, SortedPaths(a.Keys), changed);
    forall t ensures t in keys <==> t in selected {
      assert t in selected <==> t in Selected(a, changed);
    }
    AscendingUnique(AtMost, keys, selected);
  }

  lemma PayloadTargets(reason: string, pubs: Publications, deletions: set<Path>, changed: seq<Path>,
                       records: map<Path, Record>)
    ensures Payload(reason, pubs, deletions, changed, records).targets == At(pubs, SortedPaths(pubs.Keys))
  {
  }

  lemma IncrementalTargets(b: Publications, a: Publications, changed: set<Path>)
    requires changed * INFRA_PATHS == {}
    ensures RangePlan(b, a, changed).targets == At(Selected(a, changed), SortedPaths(Selected(a, changed).Keys))
  {
    var obsolete := Obsolete(b, a, changed);
    PayloadTargets("incremental", Selected(a, changed), OutputsOf(obsolete), SortedPaths(changed), RecordsOf(obsolete));
  }

  lemma SelectedAt(a: Publications, changed: set<Path>, keys: seq<Path>)
    requires forall k :: k in keys ==> k in Selected(a, changed)
    ensures At(Selected(a, changed), keys) == At(a, keys)
  {
  }

  /** The incremental targets are the touched ones of the full plan, in the same order. */
  lemma PlansInOrder(b: Publications, a: Publications, changed: set<Path>)
    requires changed * INFRA_PATHS == {}
    ensures RangePlan(b, a, changed).targets == TouchedOf(FullPlan(a).targets, changed)
  {
    PayloadTargets("full-explicit", a, {}, [], map[]);
    IncrementalTargets(b, a, changed);
    TouchedAt(a, SortedPaths(a.Keys), changed);
    SelectedKeys(a, changed);
    SelectedAt(a, changed, SortedPaths(Selected(a, changed).Keys));
  }

  lemma FullPlanTargets(a: Publications)
    ensures forall p :: p in FullPlan(a).targets <==> exists t :: t in a && a[t] == p
  {
    var keys := SortedPaths(a.Keys);
    PayloadTargets("full-explicit", a, {}, [], map[]);
    forall t | t in a ensures a[t] in FullPlan(a).targets {
      assert t in keys;
      var i :| 0 <= i < |keys| && keys[i] == t;
      assert FullPlan(a).targets[i] == a[t];
    }
  }

  lemma {:induction false} InTouched(ps: seq<Publication>, changed: set<Path>, p: Publication)
    ensures p in TouchedOf(ps, changed) <==> p in ps && Touched(p, changed)
  {
    if ps != [] {
      TailElements(ps);
      InTouched(ps[1..], changed, p);
    }
  }

  /** The incremental plan rebuilds the touched publications and no others. */
  lemma SelectedTargets(b: Publications, a: Publications, changed: set<Path>)
    requires changed * INFRA_PATHS == {}
    ensures forall p :: p in RangePlan(b, a, changed).targets <==>
              exists t :: t in a && a[t] == p && Touched(p, changed)
  {
    FullPlanTargets(a);
    PlansInOrder(b, a, changed);
    forall p ensures p in RangePlan(b, a, changed).targets <==> p in FullPlan(a).targets && Touched(p, changed) {
      InTouched(FullPlan(a).targets, changed, p);
    }
  }

  // ----- Incremental equals full

  /** The old tree is up to date, and the full plan is steady, or the one made anyway. */
  ghost predicate Ready(tc: Toolchain, config: Config, before: Tree, after: Tree, changed: set<Path>) {
    var b, a := PublicationsIn(config, before), PublicationsIn(config, after);
    && AllUpToDate(tc, before, b)
    && (changed * INFRA_PATHS != {} || Steady(FullPlan(a).targets, b, changed, Differences(before, after)))
  }

  function LessDeleted(o: Outcome, gone: seq<Path>): Outcome {
    if o.status == Done then Outcome(o.tree - (set d | d in gone), Done) else o
  }

  /** The incremental build ends as the full rebuild does, failures included, but for the files of
      publications that are gone, which it deletes when it succeeds. */
  ghost predicate SameResult(tc: Toolchain, b: Publications, a: Publications, after: Tree, changed: set<Path>) {
    var plan := RangePlan(b, a, changed);
    Execute(tc, after, plan) == LessDeleted(Execute(tc, after, FullPlan(a)), plan.deletions)
  }

  lemma SameBuildsSameResult(tc: Toolchain, b: Publications, a: Publications, tree: Tree, changed: set<Path>)
    requires BuildAll(tc, tree, RangePlan(b, a, changed).targets) == BuildAll(tc, tree, FullPlan(a).targets)
    ensures SameResult(tc, b, a, tree, changed)
  {
    FullPlanDeletesNothing(tc, tree, a);
  }

  lemma InfrastructureIsFull(tc: Toolchain, b: Publications, a: Publications, tree: Tree, changed: set<Path>)
    requires changed * INFRA_PATHS != {}
    ensures SameResult(tc, b, a, tree, changed)
  {
    assert RangePlan(b, a, changed).targets == FullPlan(a).targets;
    SameBuildsSameResult(tc, b, a, tree, changed);
  }

  lemma IncrementalEqualsFull(tc: Toolchain, config: Config, before: Tree, after: Tree, changed: set<Path>)
    requires Ready(tc, config, before, after, changed)
    ensures SameResult(tc, PublicationsIn(config, before), PublicationsIn(config, after), after, changed)
  {
    var b, a := PublicationsIn(config, before), PublicationsIn(config, after);
    if changed * INFRA_PATHS == {} {
      DifferencesClean(before, after);
      SteadySame(tc, before, b, after, FullPlan(a).targets, changed, Differences(before, after));
      PlansInOrder(b, a, changed);
      SameBuildsSameResult(tc, b, a, after, changed);
    } else {
      InfrastructureIsFull(tc, b, a, after, changed);
    }
  }

  lemma FullPlanDeletesNothing(tc: Toolchain, tree: Tree, a: Publications)
    ensures Execute(tc, tree, FullPlan(a)) == BuildAll(tc, tree, FullPlan(a).targets)
  {
    assert FullPlan(a).deletions == [];
    NothingDeleted(BuildAll(tc, tree, FullPlan(a).targets).tree);
  }

  lemma NothingDeleted(tree: Tree)
    ensures tree - (set d: Path | d in []) == tree
  {
  }

  /** So every output of a current publication is the one the full rebuild gives, unless it is the
      target of a publication that is gone; in particular every current target is. */
  lemma SameOutputs(tc: Toolchain, config: Config, before: Tree, after: Tree, changed: set<Path>, t: Path, o: Path)
    requires config.Valid() && Ready(tc, config, before, after, changed)
    requires var b, a := PublicationsIn(config, before), PublicationsIn(config, after);
             t in a && (o == t || (o in a[t].Outputs() && !(o in b && o !in a)))
    ensures var b, a := PublicationsIn(config, before), PublicationsIn(config, after);
            Agree(Execute(tc, after, RangePlan(b, a, changed)).tree, Execute(tc, after, FullPlan(a)).tree, {o})
  {
    IncrementalEqualsFull(tc, config, before, after, changed);
    DeletionsAre(config, Tracked(before), Tracked(after), changed, o);
  }

  // ----- When a tidy range is steady

  /** No touched publication writes what a later untouched one reads or writes. */
  ghost predicate Ordered(ps: seq<Publication>, changed: set<Path>) {
    forall i, j :: 0 <= i < j < |ps| && Touched(ps[i], changed) && !Touched(ps[j], changed) ==>
      Writes(ps[i]) !! Reads(ps[j]) + Writes(ps[j])
  }

  /** Every untouched publication is one of the old ones, and nothing it reads or writes is dirty. */
  ghost predicate Undisturbed(ps: seq<Publication>, b: Publications, changed: set<Path>, dirty: set<Path>) {
    forall j :: 0 <= j < |ps| && !Touched(ps[j], changed) ==>
      Among(ps[j], b) && (Reads(ps[j]) + Writes(ps[j])) !! dirty
  }

  lemma {:induction false} OrderedIsSteady(ps: seq<Publication>, b: Publications, changed: set<Path>, dirty: set<Path>)
    requires Ordered(ps, changed) && Undisturbed(ps, b, changed, dirty)
    ensures Steady(ps, b, changed, dirty)
    decreases |ps|
  {
    if ps != [] {
      var rest := ps[1..];
      assert Ordered(rest, changed) by {
        assert forall i :: 0 <= i < |rest| ==> rest[i] == ps[i + 1];
      }
      var next := if Touched(ps[0], changed) then AfterBuild(dirty, ps[0], Among(ps[0], b)) else dirty;
      forall j | 0 <= j < |rest| && !Touched(rest[j], changed)
        ensures Among(rest[j], b) && (Reads(rest[j]) + Writes(rest[j])) !! next
      {
        assert rest[j] == ps[j + 1];
        assert next <= dirty + if Touched(ps[0], changed) then Writes(ps[0]) else {};
      }
      OrderedIsSteady(rest, b, changed, next);
    }
  }

  /** t is still published, by an untouched publication, but the source it had is gone. */
  ghost predicate TakenOver(config: Config, before: Tree, after: Tree, changed: set<Path>, t: Path) {
    var b, a := PublicationsIn(config, before), PublicationsIn(config, after);
    && t in a && t in b && !Touched(a[t], changed)
    && b[t].source in Tracked(before) && b[t].source !in Tracked(after)
  }

  ghost predicate SourcesStay(config: Config, before: Tree, after: Tree, changed: set<Path>) {
    forall t :: !TakenOver(config, before, after, changed, t)
  }

  /** The range changes no output of a publication it does not touch. */
  ghost predicate OutputsStay(a: Publications, changed: set<Path>) {
    forall t :: t in a && !Touched(a[t], changed) ==> Writes(a[t]) !! changed
  }

  lemma UntouchedSteady(config: Config, before: Tree, after: Tree, changed: set<Path>, t: Path)
    requires Covers(changed, before, after) && OutputsStay(PublicationsIn(config, after), changed)
    requires t in PublicationsIn(config, after) && !Touched(PublicationsIn(config, after)[t], changed)
    ensures SteadyTarget(config, Tracked(before), Tracked(after), t)
  {
    var p := PublicationsIn(config, after)[t];
    assert t == p.target && t in Writes(p);
    UntouchedWasPublished(config, before, after, changed, t);
    UnchangedTracked(changed, before, after, t);
    UnchangedTracked(changed, before, after, p.source);
  }

  /** Where the range changes no output of an untouched publication, those are among the old ones
      exactly when no target is taken over. */
  lemma UntouchedAmong(config: Config, before: Tree, after: Tree, changed: set<Path>, t: Path)
    requires Covers(changed, before, after) && OutputsStay(PublicationsIn(config, after), changed)
    requires t in PublicationsIn(config, after) && !Touched(PublicationsIn(config, after)[t], changed)
    ensures Among(PublicationsIn(config, after)[t], PublicationsIn(config, before)) <==>
              !TakenOver(config, before, after, changed, t)
  {
    UntouchedSteady(config, before, after, changed, t);
    SamePublication(config, Tracked(before), Tracked(after), t);
  }

  lemma CoversDifferences(changed: set<Path>, before: Tree, after: Tree)
    requires Covers(changed, before, after)
    ensures Differences(before, after) <= changed
  {
    forall x | x in Differences(before, after) ensures x in changed {
      assert x !in changed ==> Agree(before, after, {x});
    }
  }

  /** A range that changes no output of an untouched publication is steady if no target is taken over
      and no touched publication writes what a later untouched one reads or writes. */
  lemma TidyIsSteady(config: Config, before: Tree, after: Tree, changed: set<Path>)
    requires Covers(changed, before, after) && OutputsStay(PublicationsIn(config, after), changed)
    requires SourcesStay(config, before, after, changed)
    requires Ordered(FullPlan(PublicationsIn(config, after)).targets, changed)
    ensures Steady(FullPlan(PublicationsIn(config, after)).targets, PublicationsIn(config, before), changed,
                   Differences(before, after))
  {
    var b, a := PublicationsIn(config, before), PublicationsIn(config, after);
    var ps := FullPlan(a).targets;
    CoversDifferences(changed, before, after);
    FullPlanTargets(a);
    forall j | 0 <= j < |ps| && !Touched(ps[j], changed)
      ensures Among(ps[j], b) && (Reads(ps[j]) + Writes(ps[j])) !! Differences(before, after)
    {
      assert ps[j] in ps;
      var t :| t in a && a[t] == ps[j];
      UntouchedAmong(config, before, after, changed, t);
      assert !TakenOver(config, before, after, changed, t);
    }
    OrderedIsSteady(ps, b, changed, Differences(before, after));
  }

  // ----- The next range starts from an up-to-date tree again

  /** No publication that comes later in the full plan writes what a[t] reads or writes. */
  ghost predicate LeftAlone(a: Publications, t: Path)
    requires t in a
  {
    forall s :: s in a && s != t && AtMost(t, s) ==> Writes(a[s]) !! Reads(a[t]) + Writes(a[t])
  }

  lemma SettlesAt(tc: Toolchain, tree: Tree, a: Publications, keys: seq<Path>, t: Path)
    requires (forall k :: k in keys ==> k in a) && Ascending(AtMost, keys) && t in keys
    requires Settles(a[t]) && LeftAlone(a, t) && BuildAll(tc, tree, At(a, keys)).status == Done
    ensures UpToDate(tc, BuildAll(tc, tree, At(a, keys)).tree, a[t])
  {
    var i :| 0 <= i < |keys| && keys[i] == t;
    forall j | i < j < |keys| ensures Writes(At(a, keys)[j]) !! Reads(a[t]) + Writes(a[t]) {
      assert keys[j] in keys && AtMost(keys[i], keys[j]) && keys[i] != keys[j];
    }
    BuildAllSettles(tc, tree, At(a, keys), i);
  }

  lemma FullBuildSettles(tc: Toolchain, tree: Tree, a: Publications, t: Path)
    requires t in a && Settles(a[t]) && LeftAlone(a, t)
    requires Execute(tc, tree, FullPlan(a)).status == Done
    ensures UpToDate(tc, Execute(tc, tree, FullPlan(a)).tree, a[t])
  {
    FullPlanDeletesNothing(tc, tree, a);
    PayloadTargets("full-explicit", a, {}, [], map[]);
    SettlesAt(tc, tree, a, SortedPaths(a.Keys), t);
  }

  /** One of the paths is a target the plan deletes: that of a touched publication that is gone. */
  ghost predicate Loses(b: Publications, a: Publications, changed: set<Path>, paths: set<Path>) {
    changed * INFRA_PATHS == {} && exists x :: x in paths && x in Obsolete(b, a, changed)
  }

  lemma NothingLost(config: Config, before: Tree, after: Tree, changed: set<Path>, paths: set<Path>)
    requires config.Valid() && !Loses(PublicationsIn(config, before), PublicationsIn(config, after), changed, paths)
    ensures var plan := RangePlan(PublicationsIn(config, before), PublicationsIn(config, after), changed);
            (set d | d in plan.deletions) !! paths
  {
    var plan := RangePlan(PublicationsIn(config, before), PublicationsIn(config, after), changed);
    forall d | d in plan.deletions ensures d !in paths {
      DeletionsAre(config, Tracked(before), Tracked(after), changed, d);
    }
  }

  /** After a successful incremental build a current publication is up to date again, unless a later
      publication writes over what it reads or writes, or the plan deleted such a file: being up to
      date carries over from range to range. */
  lemma IncrementalSettles(tc: Toolchain, config: Config, before: Tree, after: Tree, changed: set<Path>, t: Path)
    requires config.Valid() && Ready(tc, config, before, after, changed)
    requires var a := PublicationsIn(config, after); t in a && Settles(a[t]) && LeftAlone(a, t)
    ensures var b, a := PublicationsIn(config, before), PublicationsIn(config, after);
            var incremental := Execute(tc, after, RangePlan(b, a, changed));
            incremental.status == Done && !Loses(b, a, changed, Reads(a[t]) + Writes(a[t])) ==>
              UpToDate(tc, incremental.tree, a[t])
  {
    var b, a := PublicationsIn(config, before), PublicationsIn(config, after);
    var plan, p := RangePlan(b, a, changed), a[t];
    IncrementalEqualsFull(tc, config, before, after, changed);
    if Execute(tc, after, plan).status == Done && !Loses(b, a, changed, Reads(p) + Writes(p)) {
      FullBuildSettles(tc, after, a, t);
      var full := Execute(tc, after, FullPlan(a)).tree;
      NothingLost(config, before, after, changed, Reads(p) + Writes(p));
      WithoutOthers(full, (set d | d in plan.deletions), Reads(p) + Writes(p));
      UpToDateLocal(tc, full, Execute(tc, after, plan).tree, p);
    }
  }

  /** And if the deleted file is the source or something it writes, it is not up to date. */
  lemma LossUnsettles(tc: Toolchain, config: Config, before: Tree, after: Tree, changed: set<Path>, t: Path)
    requires config.Valid() && t in PublicationsIn(config, after) && Settles(PublicationsIn(config, after)[t])
    requires var b, a := PublicationsIn(config, before), PublicationsIn(config, after);
             Loses(b, a, changed, {a[t].source} + Writes(a[t]))
    ensures var b, a := PublicationsIn(config, before), PublicationsIn(config, after);
            var incremental := Execute(tc, after, RangePlan(b, a, changed));
            incremental.status == Done ==> !UpToDate(tc, incremental.tree, a[t])
  {
    var b, a := PublicationsIn(config, before), PublicationsIn(config, after);
    var plan, p := RangePlan(b, a, changed), a[t];
    var x :| x in {p.source} + Writes(p) && x in Obsolete(b, a, changed);
    DeletionsAre(config, Tracked(before), Tracked(after), changed, x);
    ExecutedWithout(tc, after, plan, x);
    if UpToDate(tc, Execute(tc, after, plan).tree, p) {
      UpToDateDelivers(tc, Execute(tc, after, plan).tree, p);
    }
  }

  lemma WithoutOthers(tree: Tree, gone: set<Path>, paths: set<Path>)
    requires gone !! paths
    ensures Agree(tree, tree - gone, paths)
  {
  }

  // ----- No stale PDF is left behind

  /** A target whose publication is gone is not in the tree after a successful incremental build,
      unless a current publication writes that very path. */
  lemma NoStaleTarget(tc: Toolchain, config: Config, before: Tree, after: Tree, changed: set<Path>, t: Path)
    requires Covers(changed, before, after) && changed * INFRA_PATHS == {}
    requires t in PublicationsIn(config, before) && t !in PublicationsIn(config, after)
    requires forall u :: u in PublicationsIn(config, after) ==> t !in Writes(PublicationsIn(config, after)[u])
    ensures var plan := RangePlan(PublicationsIn(config, before), PublicationsIn(config, after), changed);
            Execute(tc, after, plan).status == Done ==> t !in Execute(tc, after, plan).tree
  {
    var b, a := PublicationsIn(config, before), PublicationsIn(config, after);
    if Touched(b[t], changed) {
      assert t in b[t].Outputs();
      DeletionIsComplete(b, a, changed, t, t);
    } else {
      GoneUntouched(config, before, after, changed, t);
      NeverWritten(tc, b, a, after, changed, t);
    }
    ExecutedWithout(tc, after, RangePlan(b, a, changed), t);
  }

  lemma ExecutedWithout(tc: Toolchain, tree: Tree, plan: Plan, x: Path)
    requires x in plan.deletions || x !in BuildAll(tc, tree, plan.targets).tree
    ensures Execute(tc, tree, plan).status == Done ==> x !in Execute(tc, tree, plan).tree
  {
  }

  lemma NeverWritten(tc: Toolchain, b: Publications, a: Publications, tree: Tree, changed: set<Path>, x: Path)
    requires changed * INFRA_PATHS == {}
    requires x !in tree && forall t :: t in a ==> x !in Writes(a[t])
    ensures x !in BuildAll(tc, tree, RangePlan(b, a, changed).targets).tree
  {
    var targets := RangePlan(b, a, changed).targets;
    SelectedTargets(b, a, changed);
    forall i | 0 <= i < |targets| ensures x !in Writes(targets[i]) {
      assert targets[i] in targets;
      var t :| t in a && a[t] == targets[i];
    }
    BuildAllFrame(tc, tree, targets, x);
  }

  lemma GoneUntouched(config: Config, before: Tree, after: Tree, changed: set<Path>, t: Path)
    requires Covers(changed, before, after)
    requires t in PublicationsIn(config, before) && t !in PublicationsIn(config, after)
    requires !Touched(PublicationsIn(config, before)[t], changed)
    ensures t !in after
  {
    UnchangedTracked(changed, before, after, PublicationsIn(config, before)[t].source);
    if t in Tracked(before) ==> t in Tracked(after) {
      StillPublished(config, Tracked(before), Tracked(after), t);
      assert false;
    }
  }
}

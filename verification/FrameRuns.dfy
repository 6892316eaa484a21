/** Sequences of frame selections (select_frames of mdstats/collection.py). */
module FrameRuns {
  import opened Options
  import opened FrameSelection
  import opened Wrapping
  import opened Frames

  /** Everything but the provenance and the metadata. */
  ghost predicate SamePhysical(a: Collection, b: Collection) {
    a.(provenance := b.provenance, metadata := b.metadata) == b
  }

  // ----- Two selections

  lemma TakeOptionalTwice<T>(value: Option<seq<T>>, first: seq<nat>, second: seq<nat>)
    requires value.Some? ==> Inside(|value.value|, first)
    requires Inside(|first|, second)
    ensures value.Some? ==> Inside(|value.value|, Take(first, second))
    ensures TakeOptional(TakeOptional(value, first), second) == TakeOptional(value, Take(first, second))
  {
    if value.Some? {
      TakeTwice(value.value, first, second);
    }
  }

  lemma FractionalTwice(pbc: Axes, frames: seq<seq<Vec>>, first: seq<nat>, second: seq<nat>)
    requires Inside(|frames|, first) && Inside(|first|, second)
    ensures var once := Take(frames, Take(first, second));
            && Take(Take(frames, first), second) == once
            && WrapFrames(pbc, Take(WrapFrames(pbc, Take(frames, first)), second)) == WrapFrames(pbc, once)
  {
    TakeTwice(frames, first, second);
    WrapTaken(pbc, Take(frames, first), second);
    WrapFramesTwice(pbc, Take(frames, Take(first, second)));
  }

  ghost predicate TwoSteps(c: Collection, first: seq<nat>, s1: Semantics, second: seq<nat>, s2: Semantics) {
    && Fits(c, first) && Fits(Taken(c, first, s1), second)
    && (c.semantics.Ensemble? ==> s1.Ensemble?) && (s1.Ensemble? ==> s2.Ensemble?)
  }

  lemma FieldsTwice(c: Collection, first: seq<nat>, s1: Semantics, second: seq<nat>)
    requires Fits(c, first) && Fits(Taken(c, first, s1), second)
    ensures Fits(c, Take(first, second))
    ensures TakeFields(Taken(c, first, s1), second) == TakeFields(c, Take(first, second))
  {
    forall name | name in c.fields
      ensures Take(Take(c.fields[name], first), second) == Take(c.fields[name], Take(first, second))
    {
      TakeTwice(c.fields[name], first, second);
    }
  }

  lemma TakenTwice(c: Collection, first: seq<nat>, s1: Semantics, second: seq<nat>, s2: Semantics)
    requires TwoSteps(c, first, s1, second, s2)
    ensures Fits(c, Take(first, second))
    ensures SamePhysical(Taken(Taken(c, first, s1), second, s2), Taken(c, Take(first, second), s2))
  {
    FieldsTwice(c, first, s1, second);
    FractionalTwice(c.pbc, c.fractional, first, second);
    TakeOptionalTwice(c.steps, first, second);
    TakeOptionalTwice(c.times, first, second);
    TakeOptionalTwice(c.stresses, first, second);
    TakeTwice(c.cells, first, second);
    TakeTwice(c.origins, first, second);
    TakeOptionalTwice(c.velocities, first, second);
  }

  /** Selecting twice gives the data of selecting once with the composed indices. After a first
      selection was accepted, the second is accepted exactly when the single one is, unless it asks
      for a trajectory back from an ensemble. */
  lemma SelectTwice(c: Collection, f: Selection, s1: Option<Semantics>, g: Selection, s2: Option<Semantics>)
    requires Valid(c) && Select(c, f, s1).Ok?
    ensures var c1 := Select(c, f, s1).value;
            var first, second := Resolve(|c.frameIds|, f), Resolve(|c1.frameIds|, g);
            && first.Ok?
            && (second.Ok? ==>
                  Inside(|first.value|, second.value)
                  && var index := Take(first.value, second.value);
                  var once := Select(c, Indices(index), Some(Target(c1, s2)));
                  && (Select(c1, g, s2).Ok? <==>
                        once.Ok? && !(c1.semantics.Ensemble? && s2 == Some(Trajectory)))
                  && (Select(c1, g, s2).Ok? ==> SamePhysical(Select(c1, g, s2).value, once.value)))
  {
    var c1 := Select(c, f, s1).value;
    var first, second := Resolve(|c.frameIds|, f), Resolve(|c1.frameIds|, g);
    ResolveInside(|c.frameIds|, f);
    ResolveInside(|c1.frameIds|, g);
    if second.Ok? {
      TakeTwice(c.frameIds, first.value, second.value);
      var index := Take(first.value, second.value);
      ResolveIndices(|c.frameIds|, index);
      SelectAccepts(c, f, s1);
      SelectAccepts(c1, g, s2);
      SelectAccepts(c, Indices(index), Some(Target(c1, s2)));
      if c1.semantics.Trajectory? {
        ClimbsTwice(first.value, second.value);
      }
      if Select(c1, g, s2).Ok? {
        TakenTwice(c, first.value, c1.semantics, second.value, Target(c1, s2));
      }
    }
  }

  /** The provenance also composes, except that a second ensemble selection forgets that velocities
      were discarded: exactly then the two records differ. */
  lemma ProvenanceTwice(c: Collection, first: seq<nat>, s1: Semantics, second: seq<nat>, s2: Semantics)
    requires TwoSteps(c, first, s1, second, s2)
    ensures var c1 := Taken(c, first, s1);
            NewProvenance(c1, s2) == NewProvenance(c, s2) <==> !(s1.Ensemble? && c.velocities.Some?)
  {
    var c1 := Taken(c, first, s1);
    assert c1.velocities.Some? <==> s1.Trajectory? && c.velocities.Some?;
    assert "discarded_for_ensemble" != "unavailable" by {
      assert |"discarded_for_ensemble"| != |"unavailable"|;
    }
  }

  const BACKWARDS := Slice(None, None, Some(-1))

  lemma ResolveBackwards(n: nat)
    ensures Resolve(n, BACKWARDS).Ok? && |Resolve(n, BACKWARDS).value| == n
    ensures forall k :: 0 <= k < n ==> Resolve(n, BACKWARDS).value[k] == n - 1 - k
  {
    RangeIs(n - 1, -1, -1);
    var r := Range(n - 1, -1, -1);
    assert SliceRange(n, None, None, -1) == r;
    assert |r| > 0 ==> r[|r| - 1] > -1;
    SliceInside(n, None, None, -1);
  }

  /** Reversing twice is the identity selection. */
  lemma BackwardsTwice(n: nat)
    ensures Resolve(n, BACKWARDS).Ok? && Resolve(n, ALL_FRAMES).Ok?
    ensures var back := Resolve(n, BACKWARDS).value;
            Inside(|back|, back) && Take(back, back) == Resolve(n, ALL_FRAMES).value
  {
    ResolveBackwards(n);
    ResolveAll(n);
  }

  /** Yet the first reversal of a trajectory fails already, while the identity is accepted and keeps
      the data (IdentityAccepted). */
  lemma BackwardsRejected(c: Collection)
    requires Valid(c) && c.semantics.Trajectory? && |c.frameIds| >= 2
    ensures Select(c, BACKWARDS, None) == Failed(Invalid)
  {
    ResolveBackwards(|c.frameIds|);
    var index := Resolve(|c.frameIds|, BACKWARDS).value;
    assert index[0] == |c.frameIds| - 1 && index[1] == |c.frameIds| - 2;
    SelectAccepts(c, BACKWARDS, None);
  }

  lemma IdentityAccepted(c: Collection)
    requires Valid(c) && c.semantics.Trajectory?
    ensures Select(c, ALL_FRAMES, None).Ok?
    ensures SamePhysical(c.(frameIds := FirstIds(|c.frameIds|)), Select(c, ALL_FRAMES, None).value)
  {
    var n := |c.frameIds|;
    SelectAccepts(c, ALL_FRAMES, None);
    ResolveAll(n);
    TakenAll(c, Resolve(n, ALL_FRAMES).value);
  }

  lemma TakeAll<T>(s: seq<T>, index: seq<nat>)
    requires |index| == |s| && forall k :: 0 <= k < |s| ==> index[k] == k
    ensures Take(s, index) == s
  {
  }

  lemma TakenAll(c: Collection, index: seq<nat>)
    requires Fits(c, index) && c.semantics.Trajectory?
    requires |index| == |c.frameIds| && forall k :: 0 <= k < |index| ==> index[k] == k
    ensures SamePhysical(c.(frameIds := FirstIds(|c.frameIds|)), Taken(c, index, Trajectory))
  {
    if c.steps.Some? { TakeAll(c.steps.value, index); }
    TakeAll(c.times.value, index);
    if c.stresses.Some? { TakeAll(c.stresses.value, index); }
    if c.velocities.Some? { TakeAll(c.velocities.value, index); }
    TakeAll(c.cells, index);
    TakeAll(c.origins, index);
    TakeAll(c.fractional, index);
    forall name | name in c.fields ensures Take(c.fields[name], index) == c.fields[name] {
      TakeAll(c.fields[name], index);
    }
    assert TakeFields(c, index) == c.fields;
  }

  // ----- Any number of selections

  datatype Op = Op(selection: Selection, semantics: Option<Semantics>)

  /** The selections one after another, up to the first that fails. */
  function Run(c: Collection, ops: seq<Op>): (r: Outcome<Collection>)
    requires Valid(c)
    ensures r.Ok? ==> Valid(r.value)
  {
    if ops == [] then Ok(c)
    else
      var before, op := Run(c, ops[..|ops| - 1]), ops[|ops| - 1];
      if before.Failed? then before else Select(before.value, op.selection, op.semantics)
  }

  /** For each frame at the end, which frame of the start it is. */
  ghost function SourceFrames(c: Collection, ops: seq<Op>): (index: seq<nat>)
    requires Valid(c) && Run(c, ops).Ok?
    ensures |index| == |Run(c, ops).value.frameIds| && Inside(|c.frameIds|, index)
  {
    if ops == [] then seq(|c.frameIds|, k requires 0 <= k < |c.frameIds| => k)
    else
      var front, op := ops[..|ops| - 1], ops[|ops| - 1];
      var n := |Run(c, front).value.frameIds|;
      ResolveInside(n, op.selection);
      Take(SourceFrames(c, front), Resolve(n, op.selection).value)
  }

  ghost predicate AsksEnsemble(ops: seq<Op>) { exists k :: 0 <= k < |ops| && ops[k].semantics == Some(Ensemble) }

  /** d holds no velocities if it is an ensemble, and wrapped coordinates if it was `selected`. */
  ghost predicate EnsembleData(d: Collection, selected: bool) {
    d.semantics.Ensemble? ==>
      d.velocities.None? && (selected ==> WrapFrames(d.pbc, d.fractional) == d.fractional)
  }

  /** An ensemble at the end: exactly when it was one, or some selection asked for one. Then it holds
      no velocities, and any selection at all leaves its coordinates wrapped. */
  lemma {:induction false} EnsembleAbsorbs(c: Collection, ops: seq<Op>)
    requires Valid(c) && Run(c, ops).Ok?
    ensures Run(c, ops).value.pbc == c.pbc
    ensures Run(c, ops).value.semantics.Ensemble? <==> c.semantics.Ensemble? || AsksEnsemble(ops)
    ensures EnsembleData(Run(c, ops).value, ops != [])
  {
    if ops != [] {
      var k := |ops| - 1;
      EnsembleAbsorbs(c, ops[..k]);
      SelectedEnsemble(Run(c, ops[..k]).value, ops[k]);
      AsksOnceMore(ops);
    }
  }

  lemma SelectedEnsemble(c: Collection, op: Op)
    requires Valid(c) && Select(c, op.selection, op.semantics).Ok?
    ensures var d := Select(c, op.selection, op.semantics).value;
            && d.pbc == c.pbc
            && (d.semantics.Ensemble? <==> c.semantics.Ensemble? || op.semantics == Some(Ensemble))
            && EnsembleData(d, true)
  {
    var index := Resolve(|c.frameIds|, op.selection).value;
    ResolveInside(|c.frameIds|, op.selection);
    WrapFramesTwice(c.pbc, Take(c.fractional, index));
  }

  lemma AsksOnceMore(ops: seq<Op>)
    requires ops != []
    ensures var k := |ops| - 1; AsksEnsemble(ops) <==> AsksEnsemble(ops[..k]) || ops[k].semantics == Some(Ensemble)
  {
    var front := ops[..|ops| - 1];
    assert forall k :: 0 <= k < |front| ==> front[k] == ops[k];
  }

  /** d has the data of the frames `index` of c, a selection c accepts. */
  ghost predicate IsSelected(c: Collection, index: seq<nat>, d: Collection) {
    && Fits(c, index) && Valid(d)
    && (d.semantics.Ensemble? || (c.semantics.Trajectory? && Climbs(index)))
    && SamePhysical(d, Taken(c, index, d.semantics))
  }

  lemma SelectedIsSelect(c: Collection, index: seq<nat>, d: Collection)
    requires IsSelected(c, index, d)
    ensures var once := Select(c, Indices(index), Some(d.semantics)); once.Ok? && SamePhysical(d, once.value)
  {
    ResolveIndices(|c.frameIds|, index);
    SelectAccepts(c, Indices(index), Some(d.semantics));
  }

  lemma OneMoreSelection(c: Collection, index: seq<nat>, before: Collection, op: Op)
    requires IsSelected(c, index, before)
    requires Select(before, op.selection, op.semantics).Ok?
    ensures Resolve(|before.frameIds|, op.selection).Ok?
    ensures var next := Resolve(|before.frameIds|, op.selection).value;
            && Inside(|index|, next)
            && IsSelected(c, Take(index, next), Select(before, op.selection, op.semantics).value)
  {
    var next := Resolve(|before.frameIds|, op.selection).value;
    ResolveInside(|before.frameIds|, op.selection);
    SelectAccepts(before, op.selection, op.semantics);
    var s1, s2 := before.semantics, Target(before, op.semantics);
    ValidTaken(c, index, s1);
    SameSelected(before, Taken(c, index, s1), next, s2);
    TakenTwice(c, index, s1, next, s2);
    if s2.Trajectory? {
      ClimbsTwice(index, next);
    }
  }

  lemma ValidTaken(c: Collection, index: seq<nat>, semantics: Semantics)
    requires Fits(c, index)
    requires semantics.Ensemble? || (c.semantics.Trajectory? && Climbs(index))
    ensures Valid(Taken(c, index, semantics))
  {
    TakenShaped(c, index, semantics);
    TakenDocumented(c, index, semantics);
    TakenInOrder(c, index, semantics);
  }

  lemma FirstSelection(c: Collection, op: Op)
    requires Valid(c) && Select(c, op.selection, op.semantics).Ok?
    ensures var index := Resolve(|c.frameIds|, op.selection);
            index.Ok? && IsSelected(c, index.value, Select(c, op.selection, op.semantics).value)
  {
    ResolveInside(|c.frameIds|, op.selection);
    SelectAccepts(c, op.selection, op.semantics);
  }

  lemma {:induction false} RunSelects(c: Collection, ops: seq<Op>)
    requires Valid(c) && Run(c, ops).Ok? && ops != []
    ensures IsSelected(c, SourceFrames(c, ops), Run(c, ops).value)
  {
    var k := |ops| - 1;
    var before := Run(c, ops[..k]).value;
    if k == 0 {
      FirstSelection(c, ops[0]);
      assert ops[..0] == [];
      var all, index := SourceFrames(c, ops[..0]), Resolve(|c.frameIds|, ops[0].selection).value;
      assert Take(all, index) == index;
    } else {
      RunSelects(c, ops[..k]);
      OneMoreSelection(c, SourceFrames(c, ops[..k]), before, ops[k]);
    }
  }

  /** Whatever the selections, the data at the end are those of one selection of their source frames,
      and a trajectory at the end runs through them in order. */
  lemma RunIsOneSelection(c: Collection, ops: seq<Op>)
    requires Valid(c) && Run(c, ops).Ok? && ops != []
    ensures var d := Run(c, ops).value;
            var once := Select(c, Indices(SourceFrames(c, ops)), Some(d.semantics));
            && once.Ok? && SamePhysical(d, once.value)
            && (d.semantics.Trajectory? ==> Climbs(SourceFrames(c, ops)))
  {
    RunSelects(c, ops);
    SelectedIsSelect(c, SourceFrames(c, ops), Run(c, ops).value);
  }

  lemma SameSelected(a: Collection, b: Collection, index: seq<nat>, semantics: Semantics)
    requires Fits(a, index) && Valid(b) && SamePhysical(a, b)
    ensures Fits(b, index) && SamePhysical(Taken(a, index, semantics), Taken(b, index, semantics))
  {
  }

  // ----- Parents

  /** Following the recorded parent ids back through the selections, from frame k. */
  ghost function FollowParents(c: Collection, ops: seq<Op>, k: nat): int
    requires Valid(c) && Run(c, ops).Ok? && ops != [] && k < |Run(c, ops).value.frameIds|
  {
    var front := ops[..|ops| - 1];
    var parent := ParentOf(c, ops, k);
    if front == [] then parent else FollowParents(c, front, parent)
  }

  ghost function ParentOf(c: Collection, ops: seq<Op>, k: nat): (id: int)
    requires Valid(c) && Run(c, ops).Ok? && ops != [] && k < |Run(c, ops).value.frameIds|
    ensures |ops| > 1 ==> 0 <= id < |Run(c, ops[..|ops| - 1]).value.frameIds|
  {
    var n := |Run(c, ops[..|ops| - 1]).value.frameIds|;
    ResolveInside(n, ops[|ops| - 1].selection);
    Run(c, ops).value.metadata.parentFrameIds.value[k]
  }

  /** The chain of parent ids ends at the frame id the frame had at the start. */
  lemma {:induction false} ParentsTraceBack(c: Collection, ops: seq<Op>, k: nat)
    requires Valid(c) && Run(c, ops).Ok? && ops != [] && k < |Run(c, ops).value.frameIds|
    ensures FollowParents(c, ops, k) == c.frameIds[SourceFrames(c, ops)[k]]
  {
    var front := ops[..|ops| - 1];
    var before := Run(c, front).value;
    ResolveInside(|before.frameIds|, ops[|ops| - 1].selection);
    var index := Resolve(|before.frameIds|, ops[|ops| - 1].selection).value;
    assert ParentOf(c, ops, k) == before.frameIds[index[k]];
    if front != [] {
      assert before.frameIds == FirstIds(|before.frameIds|);
      ParentsTraceBack(c, front, index[k]);
    }
  }
}

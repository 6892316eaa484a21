/** Selecting frames of an atomistic collection (AtomisticFrameCollection of mdstats/collection.py). */
module Frames {
  import opened Options
  import opened FrameSelection
  import opened Wrapping

  datatype Semantics = Trajectory | Ensemble

  datatype Provenance = Provenance(
    velocitySource: string,
    coordinateNormalization: string,
    stressConvention: string,
    other: seq<string>)

  datatype Metadata = Metadata(
    parentFrameIds: Option<seq<int>>,
    selectionFrom: Option<Semantics>,
    fieldSemantics: map<string, string>,
    other: map<string, string>)

  /** `fields` holds the optional per-frame arrays that no rule looks into (forces, pressures,
      temperatures, energies), by name. */
  datatype Collection = Collection(
    semantics: Semantics,
    frameIds: seq<int>,
    numbers: seq<int>,
    masses: seq<real>,
    pbc: Axes,
    steps: Option<seq<int>>,
    times: Option<seq<real>>,
    cells: seq<Matrix>,
    origins: seq<Vec>,
    fractional: seq<seq<Vec>>,
    velocities: Option<seq<seq<Vec>>>,
    stresses: Option<seq<Matrix>>,
    fields: map<string, seq<seq<real>>>,
    provenance: Option<Provenance>,
    metadata: Metadata)

  // ----- validate_frame_collection

  predicate LengthIs<T>(value: Option<seq<T>>, n: nat) { value.Some? ==> |value.value| == n }

  predicate Rectangular(frames: seq<seq<Vec>>, n: nat, atoms: nat) {
    |frames| == n && forall t :: 0 <= t < n ==> |frames[t]| == atoms
  }

  predicate Shapes(c: Collection) {
    var n, atoms := |c.frameIds|, |c.numbers|;
    && n >= 1 && atoms >= 1 && |c.masses| == atoms
    && LengthIs(c.steps, n) && LengthIs(c.times, n) && LengthIs(c.stresses, n)
    && |c.cells| == n && |c.origins| == n
    && Rectangular(c.fractional, n, atoms)
    && (c.velocities.Some? ==> Rectangular(c.velocities.value, n, atoms))
    && forall name :: name in c.fields ==> |c.fields[name]| == n
  }

  predicate Labelled(c: Collection) {
    && (forall i, j :: 0 <= i < j < |c.frameIds| ==> c.frameIds[i] != c.frameIds[j])
    && (forall i :: 0 <= i < |c.numbers| ==> c.numbers[i] > 0)
    && (forall i :: 0 <= i < |c.masses| ==> c.masses[i] > 0.0)
  }

  predicate Rising(s: seq<real>) { forall i, j :: 0 <= i < j < |s| ==> s[i] < s[j] }

  predicate RisingSteps(s: seq<int>) { forall i, j :: 0 <= i < j < |s| ==> s[i] < s[j] }

  predicate InOrder(c: Collection) {
    match c.semantics
    case Ensemble => c.velocities.None?
    case Trajectory =>
      && c.times.Some? && Rising(c.times.value)
      && (c.steps.Some? ==> RisingSteps(c.steps.value))
      && (|c.frameIds| > 1 ==> c.velocities.Some?)
  }

  function Magnitude(x: real): real { if x < 0.0 then -x else x }

  function Determinant(m: Matrix): real {
    m[0][0] * (m[1][1] * m[2][2] - m[1][2] * m[2][1])
    - m[0][1] * (m[1][0] * m[2][2] - m[1][2] * m[2][0])
    + m[0][2] * (m[1][0] * m[2][1] - m[1][1] * m[2][0])
  }

  /** The signed volume of three rows: linear in each, turned around by an exchange, 1 for the unit cell. */
  lemma DeterminantIs(u: Vec, v: Vec, w: Vec, u': Vec, k: real)
    ensures Determinant([Unit(0), Unit(1), Unit(2)]) == 1.0
    ensures Determinant([v, u, w]) == -Determinant([u, v, w])
    ensures Determinant([v, w, u]) == Determinant([u, v, w])
    ensures Determinant([Plus(u, u'), v, w]) == Determinant([u, v, w]) + Determinant([u', v, w])
    ensures Determinant([Scaled(u, k), v, w]) == k * Determinant([u, v, w])
  {
  }

  predicate Regular(cell: Matrix) { Magnitude(Determinant(cell)) > 0.000000000001 }

  predicate Symmetric(m: Matrix) {
    forall i, j :: 0 <= i < 3 && 0 <= j < 3 ==>
      Magnitude(m[i][j] - m[j][i]) <= 0.000000000001 + 0.000000001 * Magnitude(m[j][i])
  }

  predicate FramesAccepted(c: Collection) {
    && (forall t :: 0 <= t < |c.cells| ==> Regular(c.cells[t]))
    && (c.stresses.Some? ==> forall t :: 0 <= t < |c.stresses.value| ==> Symmetric(c.stresses.value[t]))
  }

  predicate Absent(velocitySource: string) {
    velocitySource == "unavailable" || velocitySource == "discarded_for_ensemble"
  }

  predicate Documented(c: Collection) {
    && c.provenance.Some?
    && c.provenance.value.stressConvention == "tensile_positive"
    && (c.velocities.None? <==> Absent(c.provenance.value.velocitySource))
  }

  /** What every constructed collection satisfies. */
  predicate Valid(c: Collection) {
    Shapes(c) && Labelled(c) && InOrder(c) && FramesAccepted(c) && Documented(c)
  }

  // ----- select_frames

  function TakeOptional<T>(value: Option<seq<T>>, index: seq<nat>): (r: Option<seq<T>>)
    requires value.Some? ==> Inside(|value.value|, index)
    ensures r.Some? <==> value.Some?
    ensures r.Some? ==> r.value == Take(value.value, index)
  {
    if value.None? then None else Some(Take(value.value, index))
  }

  function FirstIds(n: nat): (r: seq<int>)
    ensures |r| == n && forall k :: 0 <= k < n ==> r[k] == k
  {
    seq(n, k requires 0 <= k < n => k)
  }

  function Redocumented(p: Provenance, hadVelocities: bool): Provenance {
    p.(velocitySource := if hadVelocities then "discarded_for_ensemble" else "unavailable",
       coordinateNormalization := "independent_frame_wrapping")
  }

  function NewProvenance(c: Collection, semantics: Semantics): Option<Provenance> {
    if semantics.Ensemble? && c.provenance.Some? then
      Some(Redocumented(c.provenance.value, c.velocities.Some?))
    else c.provenance
  }

  function NewFieldSemantics(fieldSemantics: map<string, string>, semantics: Semantics): map<string, string> {
    if semantics.Ensemble? && fieldSemantics != map[] then fieldSemantics["velocity_frame" := "unavailable"]
    else fieldSemantics
  }

  ghost predicate Fits(c: Collection, index: seq<nat>) {
    Valid(c) && index != [] && Inside(|c.frameIds|, index)
  }

  function TakeFields(c: Collection, index: seq<nat>): map<string, seq<seq<real>>>
    requires Shapes(c) && Inside(|c.frameIds|, index)
  {
    map name | name in c.fields :: Take(c.fields[name], index)
  }

  /** The collection handed to the constructor. */
  function Taken(c: Collection, index: seq<nat>, semantics: Semantics): Collection
    requires Fits(c, index)
  {
    var fractional := Take(c.fractional, index);
    Collection(
      semantics, FirstIds(|index|), c.numbers, c.masses, c.pbc,
      TakeOptional(c.steps, index), TakeOptional(c.times, index),
      Take(c.cells, index), Take(c.origins, index),
      if semantics.Ensemble? then WrapFrames(c.pbc, fractional) else fractional,
      if semantics.Ensemble? then None else TakeOptional(c.velocities, index),
      TakeOptional(c.stresses, index), TakeFields(c, index),
      NewProvenance(c, semantics),
      Metadata(Some(Take(c.frameIds, index)), Some(c.semantics),
               NewFieldSemantics(c.metadata.fieldSemantics, semantics), c.metadata.other))
  }

  function Target(c: Collection, semantics: Option<Semantics>): Semantics {
    if semantics.None? then c.semantics else semantics.value
  }

  /** select_frames */
  function Select(c: Collection, selection: Selection, semantics: Option<Semantics>): (r: Outcome<Collection>)
    requires Valid(c)
    ensures r.Ok? ==> Valid(r.value)
  {
    ResolveInside(|c.frameIds|, selection);
    var index := Resolve(|c.frameIds|, selection);
    if index.Failed? then Failed(index.failure)
    else if index.value == [] then Failed(EmptySelection)
    else if c.semantics.Ensemble? && Target(c, semantics).Trajectory? then Failed(EnsembleToTrajectory)
    else
      var taken := Taken(c, index.value, Target(c, semantics));
      if Valid(taken) then Ok(taken) else Failed(Invalid)
  }

  // ----- Which selections are accepted

  lemma RisingTaken(s: seq<real>, index: seq<nat>)
    requires Rising(s) && Inside(|s|, index)
    ensures Rising(Take(s, index)) <==> Climbs(index)
  {
    assert forall p, q :: 0 <= p < |s| && 0 <= q < |s| && s[p] < s[q] ==> p < q;
    if Rising(Take(s, index)) {
      forall i, j | 0 <= i < j < |index| ensures index[i] < index[j] {
        assert Take(s, index)[i] < Take(s, index)[j];
      }
    }
  }

  lemma TakenShaped(c: Collection, index: seq<nat>, semantics: Semantics)
    requires Fits(c, index)
    ensures Shapes(Taken(c, index, semantics)) && Labelled(Taken(c, index, semantics))
  {
  }

  lemma TakenDocumented(c: Collection, index: seq<nat>, semantics: Semantics)
    requires Fits(c, index)
    ensures FramesAccepted(Taken(c, index, semantics))
    ensures c.semantics.Trajectory? || semantics.Ensemble? ==> Documented(Taken(c, index, semantics))
  {
  }

  lemma TakenInOrder(c: Collection, index: seq<nat>, semantics: Semantics)
    requires Fits(c, index) && (c.semantics.Trajectory? || semantics.Ensemble?)
    ensures InOrder(Taken(c, index, semantics)) <==> semantics.Ensemble? || Climbs(index)
  {
    if semantics.Trajectory? {
      RisingTaken(c.times.value, index);
      if Climbs(index) && |index| > 1 {
        assert index[0] < index[1] < |c.frameIds|;
      }
    }
  }

  /** The whole condition of acceptance: the selection exists and is not empty, an ensemble stays one,
      and frames kept as a trajectory keep their order, each at most once. */
  lemma SelectAccepts(c: Collection, selection: Selection, semantics: Option<Semantics>)
    requires Valid(c)
    ensures var index := Resolve(|c.frameIds|, selection);
            Select(c, selection, semantics).Ok? <==>
              && index.Ok? && index.value != []
              && (Target(c, semantics).Ensemble? || (c.semantics.Trajectory? && Climbs(index.value)))
  {
    var index := Resolve(|c.frameIds|, selection);
    ResolveInside(|c.frameIds|, selection);
    if index.Ok? && index.value != [] && (c.semantics.Trajectory? || Target(c, semantics).Ensemble?) {
      TakenShaped(c, index.value, Target(c, semantics));
      TakenDocumented(c, index.value, Target(c, semantics));
      TakenInOrder(c, index.value, Target(c, semantics));
    }
  }

  /** Every valid collection has an ensemble of its own frames. */
  lemma AsEnsembleAccepted(c: Collection)
    requires Valid(c)
    ensures Select(c, ALL_FRAMES, Some(Ensemble)).Ok?
  {
    ResolveAll(|c.frameIds|);
    SelectAccepts(c, ALL_FRAMES, Some(Ensemble));
  }

  // ----- What a selection holds

  /** Frame k of the selection is frame index[k] of the source, wrapped in an ensemble; the atoms stay. */
  lemma SelectedFrame(c: Collection, selection: Selection, semantics: Option<Semantics>)
    requires Valid(c) && Select(c, selection, semantics).Ok?
    ensures var d, index := Select(c, selection, semantics).value, Resolve(|c.frameIds|, selection).value;
            && d.numbers == c.numbers && d.masses == c.masses && d.pbc == c.pbc
            && |d.frameIds| == |index| && Inside(|c.frameIds|, index)
            && forall k :: 0 <= k < |index| ==>
                 && d.frameIds[k] == k && d.cells[k] == c.cells[index[k]] && d.origins[k] == c.origins[index[k]]
                 && forall n :: 0 <= n < |c.numbers| ==>
                      d.fractional[k][n] ==
                        if d.semantics.Ensemble? then Wrap(c.pbc, c.fractional[index[k]][n])
                        else c.fractional[index[k]][n]
  {
    ResolveInside(|c.frameIds|, selection);
  }

  /** The optional value of frame k, if there is one. */
  predicate SameEntries<T(==)>(taken: Option<seq<T>>, value: Option<seq<T>>, index: seq<nat>) {
    && (taken.Some? <==> value.Some?)
    && (taken.Some? ==>
          && |taken.value| == |index|
          && forall k :: 0 <= k < |index| ==> index[k] < |value.value| && taken.value[k] == value.value[index[k]])
  }

  /** The optional arrays follow; velocities only into a trajectory. */
  lemma SelectedArrays(c: Collection, selection: Selection, semantics: Option<Semantics>)
    requires Valid(c) && Select(c, selection, semantics).Ok?
    ensures var d, index := Select(c, selection, semantics).value, Resolve(|c.frameIds|, selection).value;
            && SameEntries(d.steps, c.steps, index) && SameEntries(d.times, c.times, index)
            && SameEntries(d.stresses, c.stresses, index)
            && (if d.semantics.Ensemble? then d.velocities == None else SameEntries(d.velocities, c.velocities, index))
            && d.fields.Keys == c.fields.Keys
            && forall name :: name in c.fields ==> SameEntries(Some(d.fields[name]), Some(c.fields[name]), index)
  {
    ResolveInside(|c.frameIds|, selection);
  }

  /** What is recorded: where the frames come from, and of an ensemble that it has no velocities. */
  lemma SelectedRecords(c: Collection, selection: Selection, semantics: Option<Semantics>)
    requires Valid(c) && Select(c, selection, semantics).Ok?
    ensures var d, index := Select(c, selection, semantics).value, Resolve(|c.frameIds|, selection).value;
            var was, now := c.metadata.fieldSemantics, d.metadata.fieldSemantics;
            && d.semantics == (if semantics.Some? then semantics.value else c.semantics)
            && SameEntries(d.metadata.parentFrameIds, Some(c.frameIds), index)
            && d.metadata.selectionFrom == Some(c.semantics) && d.metadata.other == c.metadata.other
            && d.provenance.Some? && d.provenance.value.stressConvention == c.provenance.value.stressConvention
            && d.provenance.value.other == c.provenance.value.other
            && if d.semantics.Ensemble? then
                 && d.provenance.value.velocitySource
                      == (if c.velocities.Some? then "discarded_for_ensemble" else "unavailable")
                 && d.provenance.value.coordinateNormalization == "independent_frame_wrapping"
                 && (now == map[] <==> was == map[])
                 && (was != map[] ==> "velocity_frame" in now && now["velocity_frame"] == "unavailable")
                 && forall name :: name != "velocity_frame" ==>
                      (name in now <==> name in was) && (name in was ==> now[name] == was[name])
               else d.provenance == c.provenance && now == was
  {
    ResolveInside(|c.frameIds|, selection);
  }

  /** Why a selection fails: the first of these that applies. */
  lemma SelectFails(c: Collection, selection: Selection, semantics: Option<Semantics>)
    requires Valid(c)
    ensures var index, r := Resolve(|c.frameIds|, selection), Select(c, selection, semantics);
            if index.Failed? then r == Failed(index.failure)
            else if |index.value| == 0 then r == Failed(EmptySelection)
            else if c.semantics.Ensemble? && semantics == Some(Trajectory) then r == Failed(EnsembleToTrajectory)
            else r == Failed(Invalid) <==> Target(c, semantics).Trajectory? && !Climbs(index.value)
  {
    SelectAccepts(c, selection, semantics);
  }
}

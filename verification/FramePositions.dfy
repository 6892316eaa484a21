/** Cartesian and wrapped positions of selected frames (mdstats/collection.py), and select_frames with
    its in-place wrapping. */
module FramePositions {
  import opened Options
  import opened FrameSelection
  import opened Wrapping
  import opened Frames

  /** Indexing with an integer drops the frame axis. */
  datatype Picked<T> = One(frame: T) | Many(frames: seq<T>)

  function Pick<T>(s: seq<T>, selection: Selection): (r: Outcome<Picked<T>>)
    ensures r.Ok? <==> Resolve(|s|, selection).Ok?
    ensures r.Failed? ==> r.failure == Resolve(|s|, selection).failure
  {
    ResolveInside(|s|, selection);
    var index := Resolve(|s|, selection);
    if index.Failed? then Failed(index.failure)
    else if selection.Single? then
      NormalizedAllIs(|s|, [selection.i]);
      Ok(One(s[index.value[0]]))
    else Ok(Many(Take(s, index.value)))
  }

  function PlaceAtoms(atoms: seq<Vec>, cell: Matrix): (r: seq<Vec>)
    ensures |r| == |atoms| && forall n :: 0 <= n < |r| ==> r[n] == Cartesian(atoms[n], cell)
  {
    seq(|atoms|, n requires 0 <= n < |atoms| => Cartesian(atoms[n], cell))
  }

  function PlaceFrames(frames: seq<seq<Vec>>, cells: seq<Matrix>): (r: seq<seq<Vec>>)
    requires |frames| == |cells|
    ensures |r| == |frames| && forall t :: 0 <= t < |r| ==> r[t] == PlaceAtoms(frames[t], cells[t])
  {
    seq(|frames|, t requires 0 <= t < |frames| => PlaceAtoms(frames[t], cells[t]))
  }

  /** scaled @ cells, for one frame or for many. */
  function Placed(frames: Picked<seq<Vec>>, cells: Picked<Matrix>): Picked<seq<Vec>>
    requires frames.One? <==> cells.One?
    requires frames.Many? ==> |frames.frames| == |cells.frames|
  {
    if frames.One? then One(PlaceAtoms(frames.frame, cells.frame))
    else Many(PlaceFrames(frames.frames, cells.frames))
  }

  function WrapPicked(pbc: Axes, frames: Picked<seq<Vec>>): Picked<seq<Vec>> {
    if frames.One? then One(WrapAtoms(pbc, frames.frame)) else Many(WrapFrames(pbc, frames.frames))
  }

  /** get_positions */
  function GetPositions(c: Collection, selection: Selection): Outcome<Picked<seq<Vec>>>
    requires Valid(c)
  {
    var scaled, cells := Pick(c.fractional, selection), Pick(c.cells, selection);
    if scaled.Failed? then Failed(scaled.failure)
    else Ok(Placed(scaled.value, cells.value))
  }

  /** What get_wrapped_fractional_positions returns. */
  function WrappedFractional(c: Collection, selection: Selection): Outcome<Picked<seq<Vec>>> {
    var scaled := Pick(c.fractional, selection);
    if scaled.Failed? then Failed(scaled.failure) else Ok(WrapPicked(c.pbc, scaled.value))
  }

  /** get_wrapped_fractional_positions */
  method GetWrappedFractional(c: Collection, selection: Selection) returns (r: Outcome<Picked<seq<Vec>>>)
    requires Valid(c)
    ensures r == WrappedFractional(c, selection)
  {
    var picked := Pick(c.fractional, selection);
    if picked.Failed? {
      return Failed(picked.failure);
    }
    ResolveInside(|c.fractional|, selection);
    var frames := if picked.value.One? then [picked.value.frame] else picked.value.frames;
    var scaled := CopyFrames(frames, |c.numbers|);
    WrapInPlace(scaled, c.pbc);
    var rows := ReadFrames(scaled);
    r := Ok(if picked.value.One? then One(rows[0]) else Many(rows));
  }

  /** The array as a value. */
  method ReadFrames(a: array2<Vec>) returns (rows: seq<seq<Vec>>)
    ensures rows == Rows(a)
  {
    rows := [];
    for t := 0 to a.Length0
      invariant rows == Rows(a)[..t]
    {
      var atoms: seq<Vec> := [];
      for n := 0 to a.Length1
        invariant atoms == Rows(a)[t][..n]
      {
        atoms := atoms + [a[t, n]];
      }
      assert atoms == Rows(a)[t];
      rows := rows + [atoms];
    }
  }

  /** get_wrapped_positions */
  function GetWrappedPositions(c: Collection, selection: Selection): Outcome<Picked<seq<Vec>>>
    requires Valid(c)
  {
    var scaled, cells := WrappedFractional(c, selection), Pick(c.cells, selection);
    if scaled.Failed? then Failed(scaled.failure)
    else Ok(Placed(scaled.value, cells.value))
  }

  lemma FieldByField(c: Collection, index: seq<nat>, target: Semantics, taken: Collection)
    requires Fits(c, index)
    requires taken.semantics == target && taken.frameIds == FirstIds(|index|)
    requires taken.numbers == c.numbers && taken.masses == c.masses && taken.pbc == c.pbc
    requires taken.steps == TakeOptional(c.steps, index) && taken.times == TakeOptional(c.times, index)
    requires taken.cells == Take(c.cells, index) && taken.origins == Take(c.origins, index)
    requires taken.fractional ==
               if target.Ensemble? then WrapFrames(c.pbc, Take(c.fractional, index)) else Take(c.fractional, index)
    requires taken.velocities == if target.Ensemble? then None else TakeOptional(c.velocities, index)
    requires taken.stresses == TakeOptional(c.stresses, index) && taken.fields == TakeFields(c, index)
    requires taken.provenance == NewProvenance(c, target)
    requires taken.metadata == Metadata(Some(Take(c.frameIds, index)), Some(c.semantics),
                                        NewFieldSemantics(c.metadata.fieldSemantics, target), c.metadata.other)
    ensures taken == Taken(c, index, target)
  {
  }

  /** select_frames, wrapping the copied coordinates in place. */
  method SelectFrames(c: Collection, selection: Selection, semantics: Option<Semantics>)
    returns (r: Outcome<Collection>)
    requires Valid(c)
    ensures r == Select(c, selection, semantics)
  {
    ResolveInside(|c.frameIds|, selection);
    var index := Resolve(|c.frameIds|, selection);
    if index.Failed? {
      return Failed(index.failure);
    }
    if index.value == [] {
      return Failed(EmptySelection);
    }
    var target := Target(c, semantics);
    if c.semantics.Ensemble? && target.Trajectory? {
      return Failed(EnsembleToTrajectory);
    }
    var selected := CopyFrames(Take(c.fractional, index.value), |c.numbers|);
    var velocities := TakeOptional(c.velocities, index.value);
    var provenance := c.provenance;
    var fieldSemantics := c.metadata.fieldSemantics;
    if target.Ensemble? {
      WrapInPlace(selected, c.pbc);
      velocities := None;
      if provenance.Some? {
        provenance := Some(Redocumented(provenance.value, c.velocities.Some?));
      }
      if fieldSemantics != map[] {
        fieldSemantics := fieldSemantics["velocity_frame" := "unavailable"];
      }
    }
    var fractional := ReadFrames(selected);
    var metadata := Metadata(Some(Take(c.frameIds, index.value)), Some(c.semantics),
                             fieldSemantics, c.metadata.other);
    var taken := Collection(
      target, FirstIds(|index.value|), c.numbers, c.masses, c.pbc,
      TakeOptional(c.steps, index.value), TakeOptional(c.times, index.value),
      Take(c.cells, index.value), Take(c.origins, index.value), fractional, velocities,
      TakeOptional(c.stresses, index.value), TakeFields(c, index.value), provenance, metadata);
    FieldByField(c, index.value, target, taken);
    r := if Valid(taken) then Ok(taken) else Failed(Invalid);
  }

  // ----- Selections and positions

  /** The positions of selected frames are the selected positions, wrapped exactly when an ensemble
      was selected. */
  lemma SelectedPositions(c: Collection, selection: Selection, semantics: Option<Semantics>)
    requires Valid(c) && Select(c, selection, semantics).Ok?
    ensures var d := Select(c, selection, semantics).value;
            var index := Resolve(|c.frameIds|, selection).value;
            && Inside(|c.frameIds|, index)
            && GetPositions(d, ALL_FRAMES) ==
                 if d.semantics.Ensemble? then GetWrappedPositions(c, Indices(index))
                 else GetPositions(c, Indices(index))
  {
    var d := Select(c, selection, semantics).value;
    var index := Resolve(|c.frameIds|, selection).value;
    ResolveInside(|c.frameIds|, selection);
    ResolveIndices(|c.frameIds|, index);
    ResolveAll(|d.frameIds|);
    TakeEverything(d.fractional, Resolve(|d.frameIds|, ALL_FRAMES).value);
    TakeEverything(d.cells, Resolve(|d.frameIds|, ALL_FRAMES).value);
  }

  lemma TakeEverything<T>(s: seq<T>, index: seq<nat>)
    requires |index| == |s| && forall k :: 0 <= k < |s| ==> index[k] == k
    ensures Inside(|s|, index) && Take(s, index) == s
  {
  }

  /** as_ensemble().get_positions(frames) is get_wrapped_positions(frames), errors included. */
  lemma EnsemblePositions(c: Collection, selection: Selection)
    requires Valid(c)
    ensures Select(c, ALL_FRAMES, Some(Ensemble)).Ok?
    ensures GetPositions(Select(c, ALL_FRAMES, Some(Ensemble)).value, selection) == GetWrappedPositions(c, selection)
  {
    AsEnsembleAccepted(c);
    var n := |c.frameIds|;
    var d := Select(c, ALL_FRAMES, Some(Ensemble)).value;
    var all := Resolve(n, ALL_FRAMES).value;
    ResolveAll(n);
    TakeEverything(c.fractional, all);
    TakeEverything(c.cells, all);
    assert d.fractional == WrapFrames(c.pbc, c.fractional) && d.cells == c.cells;
    PickWrapped(c.pbc, c.fractional, selection);
  }

  lemma PickWrapped(pbc: Axes, frames: seq<seq<Vec>>, selection: Selection)
    ensures var picked := Pick(frames, selection);
            Pick(WrapFrames(pbc, frames), selection) ==
              if picked.Ok? then Ok(WrapPicked(pbc, picked.value)) else Failed(picked.failure)
  {
    ResolveInside(|frames|, selection);
    var index := Resolve(|frames|, selection);
    if index.Ok? {
      WrapTaken(pbc, frames, index.value);
      if selection.Single? {
        NormalizedAllIs(|frames|, [selection.i]);
      }
    }
  }

  lemma PickOne<T>(s: seq<T>, i: int)
    ensures Pick(s, Single(i)) ==
              if 0 <= i < |s| then Ok(One(s[i]))
              else if -|s| <= i < 0 then Ok(One(s[i + |s|]))
              else Failed(IndexError)
  {
    NormalizedAllIs(|s|, [i]);
  }

  /** An integer gives one frame: its atoms in the cell of that frame, wrapped first or not; integers
      outside give IndexError. */
  lemma PositionOf(c: Collection, i: int)
    requires Valid(c)
    ensures var n := |c.frameIds|;
            var plain, wrapped := GetPositions(c, Single(i)), GetWrappedPositions(c, Single(i));
            var scaled := WrappedFractional(c, Single(i));
            if i < -n || n <= i then plain == wrapped == Failed(IndexError) && scaled == Failed(IndexError)
            else
              var t := if i < 0 then i + n else i;
              && plain.Ok? && plain.value.One? && wrapped.Ok? && wrapped.value.One? && scaled.Ok? && scaled.value.One?
              && |plain.value.frame| == |wrapped.value.frame| == |scaled.value.frame| == |c.numbers|
              && forall k :: 0 <= k < |c.numbers| ==>
                   && plain.value.frame[k] == Cartesian(c.fractional[t][k], c.cells[t])
                   && scaled.value.frame[k] == Wrap(c.pbc, c.fractional[t][k])
                   && wrapped.value.frame[k] == Cartesian(scaled.value.frame[k], c.cells[t])
  {
    PickOne(c.fractional, i);
    PickOne(c.cells, i);
  }

  /** A slice or a list of indices gives frame after frame what its indices give one at a time. */
  lemma PositionsFrameByFrame(c: Collection, selection: Selection)
    requires Valid(c) && !selection.Single?
    ensures var index := Resolve(|c.frameIds|, selection);
            var plain, wrapped := GetPositions(c, selection), GetWrappedPositions(c, selection);
            var scaled := WrappedFractional(c, selection);
            if index.Failed? then
              plain == wrapped == Failed(index.failure) && scaled == Failed(index.failure)
            else
              && plain.Ok? && plain.value.Many? && wrapped.Ok? && wrapped.value.Many?
              && scaled.Ok? && scaled.value.Many?
              && |plain.value.frames| == |wrapped.value.frames| == |scaled.value.frames| == |index.value|
              && forall t :: 0 <= t < |index.value| ==>
                   && GetPositions(c, Single(index.value[t])) == Ok(One(plain.value.frames[t]))
                   && WrappedFractional(c, Single(index.value[t])) == Ok(One(scaled.value.frames[t]))
                   && GetWrappedPositions(c, Single(index.value[t])) == Ok(One(wrapped.value.frames[t]))
  {
    ResolveInside(|c.frameIds|, selection);
    var index := Resolve(|c.frameIds|, selection);
    if index.Ok? {
      forall t | 0 <= t < |index.value|
        ensures Pick(c.fractional, Single(index.value[t])) == Ok(One(c.fractional[index.value[t]]))
        ensures Pick(c.cells, Single(index.value[t])) == Ok(One(c.cells[index.value[t]]))
      {
        PickOne(c.fractional, index.value[t]);
        PickOne(c.cells, index.value[t]);
      }
    }
  }

  /** q is p moved by whole cells, along periodic axes only. */
  ghost predicate Shifted(pbc: Axes, p: Vec, q: Vec, cell: Matrix) {
    exists shift: Vec :: LatticeShift(pbc, shift) && q == Plus(p, Cartesian(shift, cell))
  }

  /** Wrapped positions differ from the plain ones by whole periodic cell rows, atom by atom. */
  lemma WrappedPositionsShift(c: Collection, i: int)
    requires Valid(c)
    ensures var n := |c.frameIds|;
            var plain, wrapped := GetPositions(c, Single(i)), GetWrappedPositions(c, Single(i));
            if i < -n || n <= i then plain == Failed(IndexError) && wrapped == Failed(IndexError)
            else
              var cell := c.cells[if i < 0 then i + n else i];
              && plain.Ok? && plain.value.One? && wrapped.Ok? && wrapped.value.One?
              && |plain.value.frame| == |wrapped.value.frame| == |c.numbers|
              && forall k :: 0 <= k < |c.numbers| ==>
                   Shifted(c.pbc, plain.value.frame[k], wrapped.value.frame[k], cell)
  {
    var n := |c.frameIds|;
    PickOne(c.fractional, i);
    PickOne(c.cells, i);
    if -n <= i < n {
      var t := if i < 0 then i + n else i;
      forall k | 0 <= k < |c.numbers|
        ensures Shifted(c.pbc, Cartesian(c.fractional[t][k], c.cells[t]),
                        Cartesian(Wrap(c.pbc, c.fractional[t][k]), c.cells[t]), c.cells[t])
      {
        WrappedPosition(c.pbc, c.fractional[t][k], c.cells[t]);
      }
    }
  }
}

/** A small trajectory, for the behaviour of repeated frame selections (mdstats/collection.py). */
module FrameExamples {
  import opened Options
  import opened FrameSelection
  import opened Wrapping
  import opened Frames
  import opened FrameRuns

  const CUBE: Matrix := [Unit(0), Unit(1), Unit(2)]

  const RESTING: seq<Vec> := [ORIGIN]

  /** One atom at rest in the unit cell, seen twice. */
  const TWO_FRAMES := Collection(
    Trajectory, [7, 8], [1], [1.0], [true, true, true], None, Some([0.0, 1.0]),
    [CUBE, CUBE], [ORIGIN, ORIGIN], [RESTING, RESTING], Some([RESTING, RESTING]), None, map[],
    Some(Provenance("native", "native_unwrapped_fractional", "tensile_positive", [])),
    Metadata(None, None, map[], map[]))

  lemma CubeRegular()
    ensures Regular(CUBE)
  {
    assert Determinant(CUBE) == 1.0;
  }

  lemma TwoFramesValid()
    ensures Valid(TWO_FRAMES)
  {
    CubeRegular();
    assert |"native"| == 6 && |"unavailable"| == 11 && |"discarded_for_ensemble"| == 22;
  }

  lemma BackwardsExample()
    ensures Valid(TWO_FRAMES) && Select(TWO_FRAMES, BACKWARDS, None) == Failed(Invalid)
  {
    TwoFramesValid();
    BackwardsRejected(TWO_FRAMES);
  }

  const BOTH: seq<nat> := [0, 1]

  /** One selection remembers that velocities were discarded, a second one forgets it. */
  lemma ProvenanceExample()
    ensures Fits(TWO_FRAMES, BOTH) && Fits(Taken(TWO_FRAMES, BOTH, Ensemble), BOTH)
    ensures var once := Taken(TWO_FRAMES, BOTH, Ensemble);
            && once.provenance.value.velocitySource == "discarded_for_ensemble"
            && Taken(once, BOTH, Ensemble).provenance.value.velocitySource == "unavailable"
  {
    TwoFramesValid();
    ValidTaken(TWO_FRAMES, BOTH, Ensemble);
  }
}

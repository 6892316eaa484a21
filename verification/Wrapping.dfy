/** Wrapping fractional coordinates into periodic cells (mdstats/collection.py), over the reals. */
module Wrapping {
  import opened FrameSelection

  type Vec = v: seq<real> | |v| == 3 witness [0.0, 0.0, 0.0]

  const ORIGIN: Vec := [0.0, 0.0, 0.0]

  /** Three cell rows. */
  type Matrix = m: seq<Vec> | |m| == 3 witness [ORIGIN, ORIGIN, ORIGIN]

  type Axes = p: seq<bool> | |p| == 3 witness [true, true, true]

  function Fraction(x: real): real { x - x.Floor as real }

  /** The axes below `upTo` wrapped. */
  function WrapSome(pbc: Axes, v: Vec, upTo: nat): Vec {
    seq(3, k requires 0 <= k < 3 => if k < upTo && pbc[k] then Fraction(v[k]) else v[k])
  }

  function Wrap(pbc: Axes, v: Vec): Vec { WrapSome(pbc, v, 3) }

  ghost predicate IsInteger(x: real) { x == x.Floor as real }

  /** The wrapped vector is the one in the cell, periodic axes only, that differs by whole cells. */
  lemma WrapIs(pbc: Axes, v: Vec, w: Vec)
    ensures w == Wrap(pbc, v) <==> forall k :: 0 <= k < 3 ==>
              if pbc[k] then 0.0 <= w[k] < 1.0 && IsInteger(w[k] - v[k]) else w[k] == v[k]
  {
    forall k | 0 <= k < 3 ensures pbc[k] ==>
      (w[k] == Fraction(v[k]) <==> 0.0 <= w[k] < 1.0 && IsInteger(w[k] - v[k]))
    {
      FractionIs(v[k], w[k]);
    }
  }

  lemma WholeIsInteger(n: int)
    ensures IsInteger(n as real)
  {
  }

  lemma FloorUnique(x: real, n: int)
    requires n as real <= x < n as real + 1.0
    ensures x.Floor == n
  {
  }

  lemma FractionIs(x: real, y: real)
    ensures y == Fraction(x) <==> 0.0 <= y < 1.0 && IsInteger(y - x)
  {
    if y == Fraction(x) {
      WholeIsInteger(-x.Floor);
      assert y - x == (-x.Floor) as real;
    }
    if 0.0 <= y < 1.0 && IsInteger(y - x) {
      FloorUnique(x, -(y - x).Floor);
    }
  }

  lemma WrapTwice(pbc: Axes, v: Vec)
    ensures Wrap(pbc, Wrap(pbc, v)) == Wrap(pbc, v)
  {
    WrapIs(pbc, v, Wrap(pbc, v));
    forall k | 0 <= k < 3 && pbc[k] ensures Fraction(Wrap(pbc, v)[k]) == Wrap(pbc, v)[k] {
      FractionIs(Wrap(pbc, v)[k], Wrap(pbc, v)[k]);
    }
  }

  function WrapAtoms(pbc: Axes, atoms: seq<Vec>): (r: seq<Vec>)
    ensures |r| == |atoms| && forall n :: 0 <= n < |r| ==> r[n] == Wrap(pbc, atoms[n])
  {
    seq(|atoms|, n requires 0 <= n < |atoms| => Wrap(pbc, atoms[n]))
  }

  function WrapFrames(pbc: Axes, frames: seq<seq<Vec>>): (r: seq<seq<Vec>>)
    ensures |r| == |frames| && forall t :: 0 <= t < |r| ==> r[t] == WrapAtoms(pbc, frames[t])
  {
    seq(|frames|, t requires 0 <= t < |frames| => WrapAtoms(pbc, frames[t]))
  }

  lemma WrapFramesTwice(pbc: Axes, frames: seq<seq<Vec>>)
    ensures WrapFrames(pbc, WrapFrames(pbc, frames)) == WrapFrames(pbc, frames)
  {
    forall t | 0 <= t < |frames|
      ensures WrapAtoms(pbc, WrapAtoms(pbc, frames[t])) == WrapAtoms(pbc, frames[t])
    {
      forall n | 0 <= n < |frames[t]|
        ensures Wrap(pbc, WrapAtoms(pbc, frames[t])[n]) == WrapAtoms(pbc, frames[t])[n]
      {
        WrapTwice(pbc, frames[t][n]);
      }
    }
  }

  lemma WrapTaken(pbc: Axes, frames: seq<seq<Vec>>, index: seq<nat>)
    requires Inside(|frames|, index)
    ensures WrapFrames(pbc, Take(frames, index)) == Take(WrapFrames(pbc, frames), index)
  {
  }

  // ----- Cartesian positions

  function Column(v: Vec, cell: Matrix, j: int): real
    requires 0 <= j < 3
  {
    v[0] * cell[0][j] + v[1] * cell[1][j] + v[2] * cell[2][j]
  }

  /** v @ cell */
  function Cartesian(v: Vec, cell: Matrix): Vec {
    [Column(v, cell, 0), Column(v, cell, 1), Column(v, cell, 2)]
  }

  function Plus(v: Vec, w: Vec): Vec { [v[0] + w[0], v[1] + w[1], v[2] + w[2]] }

  /** Whole cells, along periodic axes only. */
  ghost predicate LatticeShift(pbc: Axes, shift: Vec) {
    forall k :: 0 <= k < 3 ==> IsInteger(shift[k]) && (!pbc[k] ==> shift[k] == 0.0)
  }

  function ShiftOf(pbc: Axes, v: Vec): Vec {
    seq(3, k requires 0 <= k < 3 => if pbc[k] then -(v[k].Floor as real) else 0.0)
  }

  lemma ColumnPlus(v: Vec, shift: Vec, cell: Matrix, j: int)
    requires 0 <= j < 3
    ensures Column(Plus(v, shift), cell, j) == Column(v, cell, j) + Column(shift, cell, j)
  {
    Distribute(v[0], shift[0], cell[0][j]);
    Distribute(v[1], shift[1], cell[1][j]);
    Distribute(v[2], shift[2], cell[2][j]);
  }

  lemma CartesianPlus(v: Vec, shift: Vec, cell: Matrix)
    ensures Cartesian(Plus(v, shift), cell) == Plus(Cartesian(v, cell), Cartesian(shift, cell))
  {
    ColumnPlus(v, shift, cell, 0);
    ColumnPlus(v, shift, cell, 1);
    ColumnPlus(v, shift, cell, 2);
  }

  function Scaled(v: Vec, k: real): Vec { [k * v[0], k * v[1], k * v[2]] }

  lemma CartesianScaled(v: Vec, k: real, cell: Matrix)
    ensures Cartesian(Scaled(v, k), cell) == Scaled(Cartesian(v, cell), k)
  {
    ColumnScaled(v, k, cell, 0);
    ColumnScaled(v, k, cell, 1);
    ColumnScaled(v, k, cell, 2);
    var left, right := Cartesian(Scaled(v, k), cell), Scaled(Cartesian(v, cell), k);
    assert left[0] == right[0] && left[1] == right[1] && left[2] == right[2];
  }

  lemma ColumnScaled(v: Vec, k: real, cell: Matrix, j: int)
    requires 0 <= j < 3
    ensures Column(Scaled(v, k), cell, j) == k * Column(v, cell, j)
  {
    var a, b, c := v[0] * cell[0][j], v[1] * cell[1][j], v[2] * cell[2][j];
    assert k * v[0] * cell[0][j] == k * a && k * v[1] * cell[1][j] == k * b && k * v[2] * cell[2][j] == k * c;
    Distribute(a + b, c, k);
    Distribute(a, b, k);
  }

  function Unit(k: int): Vec
    requires 0 <= k < 3
  {
    seq(3, i requires 0 <= i < 3 => if i == k then 1.0 else 0.0)
  }

  /** One step along axis k is row k of the cell: with CartesianPlus, the cell's rows span the lattice. */
  lemma UnitIsRow(cell: Matrix, k: int)
    requires 0 <= k < 3
    ensures Cartesian(Unit(k), cell) == cell[k]
  {
    forall j | 0 <= j < 3 ensures Column(Unit(k), cell, j) == cell[k][j] {
    }
  }

  lemma Distribute(a: real, b: real, c: real)
    ensures (a + b) * c == a * c + b * c
  {
  }

  /** Wrapping moves an atom by an integer combination of the periodic cell rows. */
  lemma WrappedPosition(pbc: Axes, v: Vec, cell: Matrix)
    ensures LatticeShift(pbc, ShiftOf(pbc, v))
    ensures Cartesian(Wrap(pbc, v), cell) == Plus(Cartesian(v, cell), Cartesian(ShiftOf(pbc, v), cell))
  {
    var shift := ShiftOf(pbc, v);
    assert Wrap(pbc, v) == Plus(v, shift) by {
      assert forall k :: 0 <= k < 3 ==> Wrap(pbc, v)[k] == v[k] + shift[k];
    }
    forall k | 0 <= k < 3 ensures IsInteger(shift[k]) {
      NegatedFloor(v[k]);
    }
    CartesianPlus(v, shift, cell);
  }

  lemma NegatedFloor(x: real)
    ensures IsInteger(-(x.Floor as real)) && IsInteger(0.0)
  {
    WholeIsInteger(-x.Floor);
    WholeIsInteger(0);
    assert -(x.Floor as real) == (-x.Floor) as real;
  }

  // ----- In place

  ghost function Rows(a: array2<Vec>): (r: seq<seq<Vec>>)
    reads a
    ensures |r| == a.Length0 && forall t :: 0 <= t < |r| ==> |r[t]| == a.Length1
  {
    seq(a.Length0, t requires 0 <= t < a.Length0 reads a =>
      seq(a.Length1, n requires 0 <= n < a.Length1 reads a => a[t, n]))
  }

  function WrapAt(v: Vec, axis: nat): Vec
    requires axis < 3
  {
    v[axis := Fraction(v[axis])]
  }

  /** Replaces one coordinate of every atom of every frame by its fractional part. */
  method WrapAxis(scaled: array2<Vec>, axis: nat)
    requires axis < 3
    modifies scaled
    ensures forall t, n :: 0 <= t < scaled.Length0 && 0 <= n < scaled.Length1 ==>
              scaled[t, n] == WrapAt(old(scaled[t, n]), axis)
  {
    for t := 0 to scaled.Length0
      invariant forall s, n :: 0 <= s < scaled.Length0 && 0 <= n < scaled.Length1 ==>
        scaled[s, n] == if s < t then WrapAt(old(scaled[s, n]), axis) else old(scaled[s, n])
    {
      for n := 0 to scaled.Length1
        invariant forall s, m :: 0 <= s < scaled.Length0 && 0 <= m < scaled.Length1 ==>
          scaled[s, m] ==
            if s < t || (s == t && m < n) then WrapAt(old(scaled[s, m]), axis) else old(scaled[s, m])
      {
        var v := scaled[t, n];
        scaled[t, n] := v[axis := v[axis] - v[axis].Floor as real];
      }
    }
  }

  /** The loop over the axes. */
  method WrapInPlace(scaled: array2<Vec>, pbc: Axes)
    modifies scaled
    ensures Rows(scaled) == WrapFrames(pbc, old(Rows(scaled)))
  {
    for axis := 0 to 3
      invariant forall t, n :: 0 <= t < scaled.Length0 && 0 <= n < scaled.Length1 ==>
        scaled[t, n] == WrapSome(pbc, old(scaled[t, n]), axis)
    {
      if pbc[axis] {
        WrapAxis(scaled, axis);
      }
    }
    ghost var was := old(Rows(scaled));
    forall t | 0 <= t < scaled.Length0 ensures Rows(scaled)[t] == WrapAtoms(pbc, was[t]) {
      assert forall n :: 0 <= n < scaled.Length1 ==> Rows(scaled)[t][n] == Wrap(pbc, was[t][n]);
    }
  }

  /** A fresh array holding the frames. */
  method CopyFrames(frames: seq<seq<Vec>>, atoms: nat) returns (copy: array2<Vec>)
    requires forall t :: 0 <= t < |frames| ==> |frames[t]| == atoms
    ensures fresh(copy) && Rows(copy) == frames
  {
    copy := new Vec[|frames|, atoms]((t, n) requires 0 <= t < |frames| && 0 <= n < atoms => frames[t][n]);
    forall t | 0 <= t < |frames| ensures Rows(copy)[t] == frames[t] {
      assert forall n :: 0 <= n < atoms ==> Rows(copy)[t][n] == frames[t][n];
    }
  }
}

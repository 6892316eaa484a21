/** Frame selections (FrameSelection of mdstats/collection.py): integers, slices and index lists
    applied to an array of n frames. */
module FrameSelection {
  import opened Options

  datatype Selection =
    | Single(i: int)
    | Slice(start: Option<int>, stop: Option<int>, step: Option<int>)
    | Indices(ids: seq<int>)

  datatype Failure = IndexError | ZeroStep | EmptySelection | EnsembleToTrajectory | Invalid

  datatype Outcome<T> = Ok(value: T) | Failed(failure: Failure)

  /** An index into n entries; negative ones count from the end. */
  function Normalized(n: nat, i: int): Outcome<nat> {
    if 0 <= i < n then Ok(i)
    else if i < 0 <= i + n then Ok(i + n)
    else Failed(IndexError)
  }

  function NormalizedAll(n: nat, ids: seq<int>): Outcome<seq<nat>> {
    if ids == [] then Ok([])
    else
      var last, front := Normalized(n, ids[|ids| - 1]), NormalizedAll(n, ids[..|ids| - 1]);
      if front.Ok? && last.Ok? then Ok(front.value + [last.value]) else Failed(IndexError)
  }

  // ----- slice.indices(n)

  function Clamp(n: nat, v: int, low: int, high: int): int {
    var w := if v < 0 then v + n else v;
    if w < low then low else if w > high then high else w
  }

  function Bound(n: nat, bound: Option<int>, otherwise: int, low: int, high: int): int {
    if bound.None? then otherwise else Clamp(n, bound.value, low, high)
  }

  function Range(start: int, stop: int, step: int): seq<int>
    requires step != 0
    decreases if step > 0 then stop - start else start - stop
  {
    if (step > 0 && start < stop) || (step < 0 && start > stop) then
      [start] + Range(start + step, stop, step)
    else []
  }

  function SliceRange(n: nat, start: Option<int>, stop: Option<int>, step: int): seq<int>
    requires step != 0
  {
    if step > 0 then Range(Bound(n, start, 0, 0, n), Bound(n, stop, n, 0, n), step)
    else Range(Bound(n, start, n - 1, -1, n - 1), Bound(n, stop, -1, -1, n - 1), step)
  }

  lemma {:induction false} RangeAt(start: int, stop: int, step: int, k: nat)
    requires step != 0 && k < |Range(start, stop, step)|
    ensures var p := Range(start, stop, step)[k];
            p == start + k * step && if step > 0 then start <= p < stop else stop < p <= start
    decreases k
  {
    if k > 0 {
      RangeAt(start + step, stop, step, k - 1);
      assert k * step == step + (k - 1) * step;
    }
  }

  lemma {:induction false} RangeEnds(start: int, stop: int, step: int)
    requires step != 0
    ensures var past := start + |Range(start, stop, step)| * step;
            if step > 0 then stop <= past else past <= stop
    decreases if step > 0 then stop - start else start - stop
  {
    if Range(start, stop, step) != [] {
      var rest := Range(start + step, stop, step);
      RangeEnds(start + step, stop, step);
      assert step + |rest| * step == (|rest| + 1) * step;
    }
  }

  /** A slice lists the whole arithmetic progression between its bounds. */
  lemma RangeIs(start: int, stop: int, step: int)
    requires step != 0
    ensures var r := Range(start, stop, step);
            && (forall k :: 0 <= k < |r| ==> r[k] == start + k * step)
            && (forall k :: 0 <= k < |r| ==> if step > 0 then start <= r[k] < stop else stop < r[k] <= start)
            && (if step > 0 then stop <= start + |r| * step else start + |r| * step <= stop)
  {
    var r := Range(start, stop, step);
    forall k | 0 <= k < |r|
      ensures r[k] == start + k * step && if step > 0 then start <= r[k] < stop else stop < r[k] <= start
    {
      RangeAt(start, stop, step, k);
    }
    RangeEnds(start, stop, step);
  }

  ghost predicate Inside(n: nat, index: seq<nat>) { forall k :: 0 <= k < |index| ==> index[k] < n }

  lemma SliceInside(n: nat, start: Option<int>, stop: Option<int>, step: int)
    requires step != 0
    ensures forall k :: 0 <= k < |SliceRange(n, start, stop, step)| ==> 0 <= SliceRange(n, start, stop, step)[k] < n
  {
    if step > 0 {
      RangeIs(Bound(n, start, 0, 0, n), Bound(n, stop, n, 0, n), step);
    } else {
      RangeIs(Bound(n, start, n - 1, -1, n - 1), Bound(n, stop, -1, -1, n - 1), step);
    }
  }

  function AsNats(n: nat, s: seq<int>): seq<nat>
    requires forall k :: 0 <= k < |s| ==> 0 <= s[k] < n
  {
    seq(|s|, k requires 0 <= k < |s| => s[k] as nat)
  }

  /** The frames a selection picks out of n, a single one as a list of one. */
  function Resolve(n: nat, selection: Selection): Outcome<seq<nat>> {
    match selection
    case Single(i) => NormalizedAll(n, [i])
    case Indices(ids) => NormalizedAll(n, ids)
    case Slice(start, stop, step) =>
      var stride := if step.None? then 1 else step.value;
      if stride == 0 then Failed(ZeroStep)
      else
        SliceInside(n, start, stop, stride);
        Ok(AsNats(n, SliceRange(n, start, stop, stride)))
  }

  /** Index lists pick, in order, the frame each entry names, and fail when one names none. */
  lemma {:induction false} NormalizedAllIs(n: nat, ids: seq<int>)
    ensures NormalizedAll(n, ids).Ok? <==> forall k :: 0 <= k < |ids| ==> -(n as int) <= ids[k] < n
    ensures NormalizedAll(n, ids).Ok? ==>
              var index := NormalizedAll(n, ids).value;
              |index| == |ids| && Inside(n, index) && forall k :: 0 <= k < |ids| ==>
                index[k] == if ids[k] < 0 then ids[k] + n else ids[k]
  {
    if ids != [] {
      NormalizedAllIs(n, ids[..|ids| - 1]);
      assert ids == ids[..|ids| - 1] + [ids[|ids| - 1]];
    }
  }

  lemma ResolveInside(n: nat, selection: Selection)
    ensures Resolve(n, selection).Ok? ==> Inside(n, Resolve(n, selection).value)
  {
    match selection
    case Single(i) => NormalizedAllIs(n, [i]);
    case Indices(ids) => NormalizedAllIs(n, ids);
    case Slice(start, stop, step) =>
      var stride := if step.None? then 1 else step.value;
      if stride != 0 {
        SliceInside(n, start, stop, stride);
      }
  }

  const ALL_FRAMES := Slice(None, None, None)

  lemma ResolveAll(n: nat)
    ensures Resolve(n, ALL_FRAMES).Ok? && |Resolve(n, ALL_FRAMES).value| == n
    ensures forall k :: 0 <= k < n ==> Resolve(n, ALL_FRAMES).value[k] == k
  {
    RangeIs(0, n, 1);
    SliceInside(n, None, None, 1);
    var r := Range(0, n, 1);
    assert |r| > 0 ==> r[|r| - 1] < n;
    assert SliceRange(n, None, None, 1) == r;
  }

  /** A slice with bounds inside the array and no step is the subsequence between them. */
  lemma PlainSlice<T>(s: seq<T>, a: nat, b: nat)
    requires a <= b <= |s|
    ensures var index := Resolve(|s|, Slice(Some(a), Some(b), None));
            index.Ok? && Inside(|s|, index.value) && Take(s, index.value) == s[a..b]
  {
    RangeIs(a, b, 1);
    SliceInside(|s|, Some(a), Some(b), 1);
    var r := Range(a, b, 1);
    assert |r| > 0 ==> r[|r| - 1] < b;
    assert SliceRange(|s|, Some(a), Some(b), 1) == r;
  }

  /** Negative bounds count from the end; bounds past either end mean that end. */
  lemma BoundsFromTheEnd(n: nat, v: int, start: Option<int>, stop: Option<int>, step: Option<int>)
    ensures v < 0 <= v + n ==>
              && Resolve(n, Slice(Some(v), stop, step)) == Resolve(n, Slice(Some(v + n), stop, step))
              && Resolve(n, Slice(start, Some(v), step)) == Resolve(n, Slice(start, Some(v + n), step))
    ensures v >= n ==>
              && Resolve(n, Slice(Some(v), stop, step)) == Resolve(n, Slice(Some(n), stop, step))
              && Resolve(n, Slice(start, Some(v), step)) == Resolve(n, Slice(start, Some(n), step))
    ensures v + n < 0 && (step.None? || step.value > 0) ==>
              && Resolve(n, Slice(Some(v), stop, step)) == Resolve(n, Slice(Some(0), stop, step))
              && Resolve(n, Slice(start, Some(v), step)) == Resolve(n, Slice(start, Some(0), step))
  {
  }

  /** With a negative step no start means the last frame, and a bound before the first frame leaves
      nothing as a start and everything as a stop. */
  lemma BoundsBackwards(n: nat, v: int, start: Option<int>, stop: Option<int>, step: int)
    requires step < 0
    ensures Resolve(n, Slice(None, stop, Some(step))) == Resolve(n, Slice(Some(n), stop, Some(step)))
    ensures n > 0 ==> Resolve(n, Slice(None, stop, Some(step))) == Resolve(n, Slice(Some(n - 1), stop, Some(step)))
    ensures v + n < 0 ==>
              && Resolve(n, Slice(start, Some(v), Some(step))) == Resolve(n, Slice(start, None, Some(step)))
              && Resolve(n, Slice(Some(v), stop, Some(step))) == Ok([])
  {
    if v + n < 0 {
      var none: seq<nat> := [];
      assert SliceRange(n, Some(v), stop, step) == [] && AsNats(n, []) == none;
    }
  }

  /** With a positive step no bound means the ends; no step means 1. */
  lemma BoundsLeftOut(n: nat, start: Option<int>, stop: Option<int>, step: int)
    requires step > 0
    ensures Resolve(n, Slice(None, stop, Some(step))) == Resolve(n, Slice(Some(0), stop, Some(step)))
    ensures Resolve(n, Slice(start, None, Some(step))) == Resolve(n, Slice(start, Some(n), Some(step)))
    ensures Resolve(n, Slice(start, stop, None)) == Resolve(n, Slice(start, stop, Some(1)))
  {
  }

  /** Bounds inside the array and any step: every step-th frame from `a` on, up to but without `b`. */
  lemma SteppedSlice(n: nat, a: nat, b: nat, step: int)
    requires step != 0 && b <= n && a <= n && (step < 0 ==> a < n && b < n)
    ensures var index := Resolve(n, Slice(Some(a), Some(b), Some(step)));
            && index.Ok?
            && (forall k :: 0 <= k < |index.value| ==> index.value[k] == a + k * step)
            && (forall k :: 0 <= k < |index.value| ==>
                  if step > 0 then a <= index.value[k] < b else b < index.value[k] <= a)
            && (if step > 0 then b <= a + |index.value| * step else a + |index.value| * step <= b)
  {
    RangeIs(a, b, step);
    SliceInside(n, Some(a), Some(b), step);
  }

  /** When a selection names no frames at all: a step of 0, or an index out of range. */
  lemma ResolveFails(n: nat, selection: Selection)
    ensures Resolve(n, selection) == Failed(ZeroStep) <==> selection.Slice? && selection.step == Some(0)
    ensures Resolve(n, selection) == Failed(IndexError) <==>
              || (selection.Single? && !(-(n as int) <= selection.i < n))
              || (selection.Indices? && exists k :: 0 <= k < |selection.ids| && !(-(n as int) <= selection.ids[k] < n))
    ensures Resolve(n, selection).Failed? ==> Resolve(n, selection).failure in {ZeroStep, IndexError}
  {
    match selection
    case Single(i) =>
      NormalizedAllFails(n, [i]);
      NormalizedAllIs(n, [i]);
    case Indices(ids) =>
      NormalizedAllFails(n, ids);
      NormalizedAllIs(n, ids);
    case Slice(start, stop, step) =>
  }

  lemma NormalizedAllFails(n: nat, ids: seq<int>)
    ensures NormalizedAll(n, ids).Failed? ==> NormalizedAll(n, ids).failure == IndexError
  {
  }

  lemma ResolveIndices(n: nat, index: seq<nat>)
    requires Inside(n, index)
    ensures Resolve(n, Indices(index)) == Ok(index)
  {
    NormalizedAllIs(n, index);
    if NormalizedAll(n, index).Ok? {
      assert NormalizedAll(n, index).value == index;
    }
  }

  // ----- Taking entries

  /** value[index] for an integer array. */
  function Take<T>(s: seq<T>, index: seq<nat>): (r: seq<T>)
    requires Inside(|s|, index)
    ensures |r| == |index| && forall k :: 0 <= k < |r| ==> r[k] == s[index[k]]
  {
    seq(|index|, k requires 0 <= k < |index| => s[index[k]])
  }

  lemma TakeTwice<T>(s: seq<T>, first: seq<nat>, second: seq<nat>)
    requires Inside(|s|, first) && Inside(|first|, second)
    ensures Inside(|s|, Take(first, second))
    ensures Take(Take(s, first), second) == Take(s, Take(first, second))
  {
  }

  ghost predicate Climbs(index: seq<nat>) { forall i, j :: 0 <= i < j < |index| ==> index[i] < index[j] }

  lemma ClimbsTwice(first: seq<nat>, second: seq<nat>)
    requires Inside(|first|, second) && Climbs(first)
    ensures Climbs(Take(first, second)) <==> Climbs(second)
  {
    if Climbs(second) {
      forall i, j | 0 <= i < j < |second| ensures Take(first, second)[i] < Take(first, second)[j] {
        assert second[i] < second[j];
      }
    }
    assert forall p, q :: 0 <= p < |first| && 0 <= q < |first| && first[p] < first[q] ==> p < q;
    if Climbs(Take(first, second)) {
      forall i, j | 0 <= i < j < |second| ensures second[i] < second[j] {
        assert Take(first, second)[i] < Take(first, second)[j];
      }
    }
  }
}

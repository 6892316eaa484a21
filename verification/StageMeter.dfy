/** The stage loop of benchmarks/benchmark_mlff_prepare_o0.py: output lines open stages, samples
    raise the peaks of the stage that is open, and every stage leaves a row. */
module StageMeter {
  import opened ProcessTree
  import opened Options

  /** A stage row: times and counters over the stage, the peaks within it. */
  datatype Row = Row(stage: string, wall: real, counters: Reading, peaks: Peaks, line: Option<string>)

  datatype Transition = Transition(at: real, from: string, to: string, line: string)

  /** What one turn of the loop sees: a line, with the stage the pattern finds in it, or the check of
      the sampling clock; and the snapshot taken, if one is. */
  datatype Event =
    | Line(stage: Option<string>, text: string, snap: Snapshot, time: real)
    | Tick(now: real, snap: Snapshot)

  /** The variables of the loop, with the peaks of the tracker. */
  datatype State = State(
    current: string,
    stageStarted: real,
    stageBefore: Snapshot,
    peaks: Peaks,
    rows: seq<Row>,
    transitions: seq<Transition>,
    nextSample: real,
    trackerPeak: Peaks)

  datatype Setup = Setup(started: real, interval: real, baseline: Snapshot)

  function Delta(after: Snapshot, before: Snapshot): Reading {
    Reading(after.totals.user - before.totals.user, after.totals.system - before.totals.system,
            after.totals.readBytes - before.totals.readBytes, after.totals.writeBytes - before.totals.writeBytes)
  }

  /** _stage_row. */
  function StageRow(s: State, ended: real, after: Snapshot, peaks: Peaks, line: Option<string>): Row {
    Row(s.current, ended - s.stageStarted, Delta(after, s.stageBefore), peaks, line)
  }

  function Start(setup: Setup): State {
    State("startup", setup.started, setup.baseline, setup.baseline.current, [], [], setup.started + setup.interval,
          MaxPeaks(Peaks(0, 0, 0), setup.baseline.current))
  }

  /** Whether the event makes the loop take a snapshot. */
  predicate Snaps(s: State, e: Event) {
    match e
    case Line(stage, _, _, _) => stage.Some? && stage.value != s.current
    case Tick(now, _) => now >= s.nextSample
  }

  function Step(setup: Setup, s: State, e: Event): State {
    if !Snaps(s, e) then s
    else
      var peak := MaxPeaks(s.trackerPeak, e.snap.current);
      match e
      case Line(stage, text, snap, time) =>
        State(stage.value, time, snap, snap.current,
              s.rows + [StageRow(s, time, snap, s.peaks, Some(text))],
              s.transitions + [Transition(time - setup.started, s.current, stage.value, text)],
              s.nextSample, peak)
      case Tick(now, snap) =>
        s.(peaks := MaxPeaks(s.peaks, snap.current), nextSample := now + setup.interval, trackerPeak := peak)
  }

  function Run(setup: Setup, events: seq<Event>): State {
    if events == [] then Start(setup)
    else Step(setup, Run(setup, events[..|events| - 1]), events[|events| - 1])
  }

  /** The report: the rows with that of the last stage, the transitions and the tracker's peaks. */
  datatype Payload = Payload(rows: seq<Row>, transitions: seq<Transition>, peak: Peaks)

  function Finish(s: State, last: Snapshot, ended: real): Payload {
    Payload(s.rows + [StageRow(s, ended, last, MaxPeaks(s.peaks, last.current), None)],
            s.transitions, MaxPeaks(s.trackerPeak, last.current))
  }

  // ----- Conservation

  function SumWall(rows: seq<Row>): real {
    if rows == [] then 0.0 else SumWall(rows[..|rows| - 1]) + rows[|rows| - 1].wall
  }

  function SumCounter(rows: seq<Row>, k: Counter): real {
    if rows == [] then 0.0 else SumCounter(rows[..|rows| - 1], k) + Value(rows[|rows| - 1].counters, k)
  }

  function MaxRows(rows: seq<Row>): Peaks {
    if rows == [] then Peaks(0, 0, 0) else MaxPeaks(MaxRows(rows[..|rows| - 1]), rows[|rows| - 1].peaks)
  }

  lemma SumsAppend(rows: seq<Row>, r: Row, k: Counter)
    ensures SumWall(rows + [r]) == SumWall(rows) + r.wall
    ensures SumCounter(rows + [r], k) == SumCounter(rows, k) + Value(r.counters, k)
    ensures MaxRows(rows + [r]) == MaxPeaks(MaxRows(rows), r.peaks)
  {
    assert (rows + [r])[..|rows|] == rows;
  }

  lemma DeltaValue(after: Snapshot, before: Snapshot, k: Counter)
    ensures Value(Delta(after, before), k) == Value(after.totals, k) - Value(before.totals, k)
  {
  }

  /** The closed stages account for all time, counters and peaks up to the start of the open one. */
  ghost predicate Balanced(setup: Setup, s: State) {
    && SumWall(s.rows) == s.stageStarted - setup.started
    && (forall k :: SumCounter(s.rows, k) == Value(s.stageBefore.totals, k) - Value(setup.baseline.totals, k))
    && MaxPeaks(MaxRows(s.rows), s.peaks) == s.trackerPeak
  }

  /** The stage after row i. */
  function NextStage(rows: seq<Row>, i: nat, current: string): string {
    if i + 1 < |rows| then rows[i + 1].stage else current
  }

  /** Each transition leaves the stage of its row for a different one, at the end of that row. */
  ghost predicate Linked(rows: seq<Row>, transitions: seq<Transition>, current: string) {
    && |transitions| == |rows|
    && forall i :: 0 <= i < |rows| ==> LinkedAt(rows, transitions[i], i, NextStage(rows, i, current))
  }

  ghost predicate LinkedAt(rows: seq<Row>, t: Transition, i: nat, next: string)
    requires i < |rows|
  {
    && t.from == rows[i].stage && t.to == next && rows[i].stage != next
    && rows[i].line == Some(t.line) && t.at == SumWall(rows[..i + 1])
  }

  lemma StepBalanced(setup: Setup, s: State, e: Event)
    requires Balanced(setup, s)
    ensures Balanced(setup, Step(setup, s, e))
  {
    if Snaps(s, e) && e.Line? {
      var s' := Step(setup, s, e);
      var row := StageRow(s, e.time, e.snap, s.peaks, Some(e.text));
      forall k ensures SumCounter(s'.rows, k) == Value(s'.stageBefore.totals, k) - Value(setup.baseline.totals, k) {
        SumsAppend(s.rows, row, k);
        DeltaValue(e.snap, s.stageBefore, k);
      }
      SumsAppend(s.rows, row, User);
    }
  }

  lemma LinkedAppend(rows: seq<Row>, transitions: seq<Transition>, current: string, row: Row, t: Transition)
    requires Linked(rows, transitions, current)
    requires row.stage == t.from == current != t.to && row.line == Some(t.line) && t.at == SumWall(rows + [row])
    ensures Linked(rows + [row], transitions + [t], t.to)
  {
    var n := |rows|;
    var rows', transitions' := rows + [row], transitions + [t];
    forall i | 0 <= i < n + 1 ensures LinkedAt(rows', transitions'[i], i, NextStage(rows', i, t.to)) {
      if i < n {
        assert rows'[..i + 1] == rows[..i + 1];
        assert LinkedAt(rows, transitions[i], i, NextStage(rows, i, current));
      } else {
        assert rows'[..i + 1] == rows';
      }
    }
  }

  lemma StepLinked(setup: Setup, s: State, e: Event)
    requires Balanced(setup, s) && Linked(s.rows, s.transitions, s.current)
    ensures var s' := Step(setup, s, e); Linked(s'.rows, s'.transitions, s'.current)
  {
    if Snaps(s, e) && e.Line? {
      var row := StageRow(s, e.time, e.snap, s.peaks, Some(e.text));
      SumsAppend(s.rows, row, User);
      LinkedAppend(s.rows, s.transitions, s.current, row,
                   Transition(e.time - setup.started, s.current, e.stage.value, e.text));
    }
  }

  lemma {:induction false} RunAccounted(setup: Setup, events: seq<Event>)
    ensures var s := Run(setup, events); Balanced(setup, s) && Linked(s.rows, s.transitions, s.current)
  {
    if events != [] {
      var n := |events| - 1;
      RunAccounted(setup, events[..n]);
      StepBalanced(setup, Run(setup, events[..n]), events[n]);
      StepLinked(setup, Run(setup, events[..n]), events[n]);
    }
  }

  /** Over every run: the wall times add up to the total, the counters to final less baseline, the
      largest stage peaks are the peaks of the tracker, the rows are one more than the transitions,
      and neighbouring rows have different stages and meet where the transition says. */
  lemma Conservation(setup: Setup, events: seq<Event>, last: Snapshot, ended: real)
    ensures var p := Finish(Run(setup, events), last, ended);
            && SumWall(p.rows) == ended - setup.started
            && (forall k :: SumCounter(p.rows, k) == Value(last.totals, k) - Value(setup.baseline.totals, k))
            && MaxRows(p.rows) == p.peak
            && |p.rows| == |p.transitions| + 1
            && p.rows[0].stage == "startup" && p.rows[|p.transitions|].line == None
            && forall i :: 0 <= i < |p.transitions| ==> LinkedAt(p.rows, p.transitions[i], i, p.rows[i + 1].stage)
  {
    var s := Run(setup, events);
    var row := StageRow(s, ended, last, MaxPeaks(s.peaks, last.current), None);
    var rows := s.rows + [row];
    RunAccounted(setup, events);
    StartsAtStartup(setup, events);
    forall k ensures SumCounter(rows, k) == Value(last.totals, k) - Value(setup.baseline.totals, k) {
      SumsAppend(s.rows, row, k);
      DeltaValue(last, s.stageBefore, k);
    }
    SumsAppend(s.rows, row, User);
    LinkedToTheEnd(s.rows, s.transitions, s.current, row);
  }

  lemma LinkedToTheEnd(rows: seq<Row>, transitions: seq<Transition>, current: string, last: Row)
    requires Linked(rows, transitions, current) && last.stage == current
    ensures forall i :: 0 <= i < |rows| ==> LinkedAt(rows + [last], transitions[i], i, (rows + [last])[i + 1].stage)
  {
    forall i | 0 <= i < |rows| ensures LinkedAt(rows + [last], transitions[i], i, (rows + [last])[i + 1].stage) {
      assert (rows + [last])[..i + 1] == rows[..i + 1];
      assert LinkedAt(rows, transitions[i], i, NextStage(rows, i, current));
    }
  }

  lemma {:induction false} StartsAtStartup(setup: Setup, events: seq<Event>)
    ensures var s := Run(setup, events); (if s.rows == [] then s.current else s.rows[0].stage) == "startup"
  {
    if events != [] {
      StartsAtStartup(setup, events[..|events| - 1]);
    }
  }

  // ----- Stage counters are not negative when the totals never fall

  /** `totals[i]` are the tracker's totals before event i: a snapshot sets and never lowers them. */
  ghost predicate Climbs(setup: Setup, events: seq<Event>, totals: seq<Reading>, k: Counter) {
    && |totals| == |events| + 1 && totals[0] == setup.baseline.totals
    && forall i :: 0 <= i < |events| ==> ClimbsAt(Run(setup, events[..i]), events[i], totals[i], totals[i + 1], k)
  }

  ghost predicate ClimbsAt(s: State, e: Event, before: Reading, after: Reading, k: Counter) {
    if Snaps(s, e) then after == e.snap.totals && NotBelow(after, before, k) else after == before
  }

  predicate NotBelow(a: Reading, b: Reading, k: Counter) { Value(b, k) <= Value(a, k) }

  ghost predicate NonNegativeRows(rows: seq<Row>, k: Counter) {
    forall i :: 0 <= i < |rows| ==> Value(rows[i].counters, k) >= 0.0
  }

  lemma RowNonNegative(s: State, rows: seq<Row>, row: Row, after: Snapshot, k: Counter)
    requires NonNegativeRows(rows, k) && row.counters == Delta(after, s.stageBefore)
    requires NotBelow(after.totals, s.stageBefore.totals, k)
    ensures NonNegativeRows(rows + [row], k)
  {
    DeltaValue(after, s.stageBefore, k);
    forall i | 0 <= i < |rows| + 1 ensures Value((rows + [row])[i].counters, k) >= 0.0 {
      assert i < |rows| ==> Value(rows[i].counters, k) >= 0.0;
    }
  }

  lemma {:induction false} RunClimbs(setup: Setup, events: seq<Event>, totals: seq<Reading>, k: Counter)
    requires Climbs(setup, events, totals, k)
    ensures var s := Run(setup, events);
            NonNegativeRows(s.rows, k) && NotBelow(totals[|events|], s.stageBefore.totals, k)
  {
    if events != [] {
      var n := |events| - 1;
      forall i | 0 <= i < n
        ensures ClimbsAt(Run(setup, events[..n][..i]), events[..n][i], totals[..n + 1][i], totals[..n + 1][i + 1], k)
      {
        assert events[..n][..i] == events[..i];
        assert ClimbsAt(Run(setup, events[..i]), events[i], totals[i], totals[i + 1], k);
      }
      RunClimbs(setup, events[..n], totals[..n + 1], k);
      var s, e := Run(setup, events[..n]), events[n];
      assert ClimbsAt(s, e, totals[n], totals[n + 1], k);
      if Snaps(s, e) && e.Line? {
        RowNonNegative(s, s.rows, StageRow(s, e.time, e.snap, s.peaks, Some(e.text)), e.snap, k);
      }
    }
  }

  /** As long as a total never falls, no stage reports a negative amount of it. */
  lemma NoNegativeStage(setup: Setup, events: seq<Event>, totals: seq<Reading>, last: Snapshot, ended: real, k: Counter)
    requires Climbs(setup, events, totals, k) && NotBelow(last.totals, totals[|events|], k)
    ensures NonNegativeRows(Finish(Run(setup, events), last, ended).rows, k)
  {
    var s := Run(setup, events);
    RunClimbs(setup, events, totals, k);
    RowNonNegative(s, s.rows, StageRow(s, ended, last, MaxPeaks(s.peaks, last.current), None), last, k);
  }
}

/** main() of benchmarks/benchmark_mlff_prepare_o0.py: the tracker and the stage loop together. */
module MeterProgram {
  import opened ProcessTree
  import opened StageMeter
  import opened Options

  /** What happens to the loop: a line of output or a turn of the clock, and what /proc shows then. */
  datatype Input =
    | LineRead(stage: Option<string>, text: string, obs: Observation, time: real)
    | ClockRead(now: real, obs: Observation)

  function Seen(input: Input, snap: Snapshot): Event {
    match input
    case LineRead(stage, text, _, time) => Line(stage, text, snap, time)
    case ClockRead(now, _) => Tick(now, snap)
  }

  ghost predicate TurnOf(root: int, s: State, input: Input, e: Event, ts: TrackerState, ts': TrackerState) {
    && e == Seen(input, e.snap)
    && if Snaps(s, e) then Taken(ts, input.obs, root, ts', e.snap) else ts' == ts
  }

  /** The stage variables of main. */
  class Meter {
    const started: real
    const interval: real
    var currentStage: string
    var stageStarted: real
    var stageBefore: Snapshot
    var stagePeaks: Peaks
    var stageRows: seq<Row>
    var transitions: seq<Transition>
    var nextSample: real

    /** The state of the loop, given the peaks of the tracker. */
    ghost function View(peak: Peaks): State
      reads this
    {
      State(currentStage, stageStarted, stageBefore, stagePeaks, stageRows, transitions, nextSample, peak)
    }

    constructor (started: real, interval: real, baseline: Snapshot)
      ensures this.started == started && this.interval == interval
      ensures View(MaxPeaks(Peaks(0, 0, 0), baseline.current)) == Start(Setup(started, interval, baseline))
    {
      this.started, this.interval := started, interval;
      currentStage := "startup";
      stageStarted := started;
      stageBefore := baseline;
      stagePeaks := baseline.current;
      stageRows, transitions := [], [];
      nextSample := started + interval;
    }

    /** A line opens a new stage. */
    method Open(stage: string, text: string, snap: Snapshot, time: real, ghost baseline: Snapshot, ghost peak: Peaks)
      requires stage != currentStage
      modifies this
      ensures View(MaxPeaks(peak, snap.current))
           == Step(Setup(started, interval, baseline), old(View(peak)), Line(Some(stage), text, snap, time))
    {
      stageRows := stageRows + [StageMeter.Row(currentStage, time - stageStarted, Delta(snap, stageBefore),
                                               stagePeaks, Some(text))];
      transitions := transitions + [Transition(time - started, currentStage, stage, text)];
      currentStage := stage;
      stageStarted := time;
      stageBefore := snap;
      stagePeaks := snap.current;
    }

    /** The sampling clock has run out. */
    method Sample(now: real, snap: Snapshot, ghost baseline: Snapshot, ghost peak: Peaks)
      requires now >= nextSample
      modifies this
      ensures View(MaxPeaks(peak, snap.current))
           == Step(Setup(started, interval, baseline), old(View(peak)), Tick(now, snap))
    {
      stagePeaks := MaxPeaks(stagePeaks, snap.current);
      nextSample := now + interval;
    }

    method Close(last: Snapshot, ended: real, peak: Peaks, ghost before: Peaks) returns (payload: Payload)
      requires peak == MaxPeaks(before, last.current)
      modifies this
      ensures payload == Finish(old(View(before)), last, ended)
    {
      stagePeaks := MaxPeaks(stagePeaks, last.current);
      stageRows := stageRows + [StageMeter.Row(currentStage, ended - stageStarted, Delta(last, stageBefore),
                                               stagePeaks, None)];
      payload := Payload(stageRows, transitions, peak);
    }
  }

  /** One turn of the loop: the snapshot is taken only where a stage opens or a sample is due. */
  method Turn(meter: Meter, tracker: Tracker, input: Input, ghost setup: Setup) returns (ghost e: Event)
    requires setup.started == meter.started && setup.interval == meter.interval
    modifies meter, tracker
    ensures TurnOf(tracker.root, old(meter.View(tracker.State().peak)), input, e, old(tracker.State()), tracker.State())
    ensures meter.View(tracker.State().peak) == Step(setup, old(meter.View(tracker.State().peak)), e)
  {
    ghost var peak := tracker.State().peak;
    e := Seen(input, meter.stageBefore);
    match input
    case LineRead(stage, text, obs, time) =>
      if stage.Some? && stage.value != meter.currentStage {
        var snap := tracker.TakeSnapshot(obs);
        meter.Open(stage.value, text, snap, time, setup.baseline, peak);
        e := Seen(input, snap);
      }
    case ClockRead(now, obs) =>
      if now >= meter.nextSample {
        var snap := tracker.TakeSnapshot(obs);
        meter.Sample(now, snap, setup.baseline, peak);
        e := Seen(input, snap);
      }
  }

  /** The events are the inputs with the snapshots the tracker took, one tracker state after another. */
  ghost predicate Witnessed(root: int, setup: Setup, inputs: seq<Input>, events: seq<Event>,
                            states: seq<TrackerState>)
  {
    && |events| == |inputs| && |states| == |inputs| + 1
    && forall i :: 0 <= i < |inputs| ==>
         TurnOf(root, Run(setup, events[..i]), inputs[i], events[i], states[i], states[i + 1])
  }

  lemma WitnessOneMore(root: int, setup: Setup, inputs: seq<Input>, i: nat, events: seq<Event>,
                       states: seq<TrackerState>, e: Event, ts: TrackerState)
    requires i < |inputs| && Witnessed(root, setup, inputs[..i], events, states)
    requires TurnOf(root, Run(setup, events), inputs[i], e, states[i], ts)
    ensures Witnessed(root, setup, inputs[..i + 1], events + [e], states + [ts])
    ensures Run(setup, events + [e]) == Step(setup, Run(setup, events), e)
  {
    var events', states' := events + [e], states + [ts];
    assert events'[..i] == events;
    forall j | 0 <= j < i + 1
      ensures TurnOf(root, Run(setup, events'[..j]), inputs[..i + 1][j], events'[j], states'[j], states'[j + 1])
    {
      if j < i {
        assert events'[..j] == events[..j];
        assert TurnOf(root, Run(setup, events[..j]), inputs[..i][j], events[j], states[j], states[j + 1]);
      }
    }
  }

  /** Where the loop stands after `inputs`. */
  ghost predicate Reached(root: int, setup: Setup, first: Observation, inputs: seq<Input>, events: seq<Event>,
                          states: seq<TrackerState>, view: State, ts: TrackerState)
  {
    && Witnessed(root, setup, inputs, events, states)
    && Taken(TrackerState(map[], Peaks(0, 0, 0)), first, root, states[0], setup.baseline)
    && view == Run(setup, events) && ts == states[|inputs|]
  }

  lemma ReachedStart(root: int, setup: Setup, first: Observation, view: State, ts: TrackerState)
    requires Taken(TrackerState(map[], Peaks(0, 0, 0)), first, root, ts, setup.baseline) && view == Start(setup)
    ensures Reached(root, setup, first, [], [], [ts], view, ts)
  {
  }

  lemma ReachedOneMore(root: int, setup: Setup, first: Observation, inputs: seq<Input>, i: nat, events: seq<Event>,
                       states: seq<TrackerState>, view: State, ts: TrackerState, e: Event, view': State,
                       ts': TrackerState)
    requires i < |inputs| && Reached(root, setup, first, inputs[..i], events, states, view, ts)
    requires TurnOf(root, view, inputs[i], e, ts, ts') && view' == Step(setup, view, e)
    ensures Reached(root, setup, first, inputs[..i + 1], events + [e], states + [ts'], view', ts')
  {
    WitnessOneMore(root, setup, inputs, i, events, states, e, ts');
  }

  /** The loop. */
  method Loop(meter: Meter, tracker: Tracker, inputs: seq<Input>, ghost setup: Setup, ghost first: Observation)
    returns (ghost events: seq<Event>, ghost states: seq<TrackerState>)
    requires setup.started == meter.started && setup.interval == meter.interval
    requires Reached(tracker.root, setup, first, [], [], [tracker.State()],
                     meter.View(tracker.State().peak), tracker.State())
    modifies meter, tracker
    ensures Reached(tracker.root, setup, first, inputs, events, states,
                    meter.View(tracker.State().peak), tracker.State())
  {
    events, states := [], [tracker.State()];
    for i := 0 to |inputs|
      invariant Reached(tracker.root, setup, first, inputs[..i], events, states,
                        meter.View(tracker.State().peak), tracker.State())
    {
      ghost var view, ts := meter.View(tracker.State().peak), tracker.State();
      ghost var e := Turn(meter, tracker, inputs[i], setup);
      ReachedOneMore(tracker.root, setup, first, inputs, i, events, states, view, ts, e,
                     meter.View(tracker.State().peak), tracker.State());
      events, states := events + [e], states + [tracker.State()];
    }
    assert inputs[..|inputs|] == inputs;
  }

  /** main: any inputs, cut off anywhere, then the final snapshot. */
  method Measure(root: int, started: real, interval: real, first: Observation, inputs: seq<Input>, last: Observation,
                 ended: real)
    returns (payload: Payload, baseline: Snapshot, final: Snapshot, ghost events: seq<Event>,
             ghost states: seq<TrackerState>)
    ensures var setup := Setup(started, interval, baseline);
            && Witnessed(root, setup, inputs, events, states)
            && Taken(TrackerState(map[], Peaks(0, 0, 0)), first, root, states[0], baseline)
            && payload == Finish(Run(setup, events), final, ended)
    ensures exists ts :: Taken(states[|inputs|], last, root, ts, final)
  {
    var tracker := new Tracker(root);
    baseline := tracker.TakeSnapshot(first);
    var meter := new Meter(started, interval, baseline);
    ghost var setup := Setup(started, interval, baseline);
    ReachedStart(root, setup, first, meter.View(tracker.State().peak), tracker.State());
    events, states := Loop(meter, tracker, inputs, setup, first);
    ghost var before := tracker.State().peak;
    final := tracker.TakeSnapshot(last);
    payload := meter.Close(final, ended, Peaks(tracker.peakRss, tracker.peakProcesses, tracker.peakThreads), before);
  }

  // ----- The sampled counters of a stage

  /** No process counts backwards in k at any snapshot of the run. */
  ghost predicate ForwardRun(root: int, setup: Setup, inputs: seq<Input>, events: seq<Event>, states: seq<TrackerState>,
                              k: Counter)
    requires |events| == |inputs| && |states| == |inputs| + 1
  {
    forall i :: 0 <= i < |inputs| && Snaps(Run(setup, events[..i]), events[i]) ==>
      Forward(states[i], inputs[i].obs, root, k)
  }

  /** Processes may come and go: as long as no single one counts backwards between the snapshots that
      read it, no stage reports a negative amount. */
  lemma StagesNonNegative(root: int, setup: Setup, first: Observation, inputs: seq<Input>, events: seq<Event>,
                          states: seq<TrackerState>, last: Observation, ts: TrackerState, final: Snapshot, ended: real,
                          k: Counter)
    requires Witnessed(root, setup, inputs, events, states) && ForwardRun(root, setup, inputs, events, states, k)
    requires Taken(TrackerState(map[], Peaks(0, 0, 0)), first, root, states[0], setup.baseline)
    requires Taken(states[|inputs|], last, root, ts, final) && Forward(states[|inputs|], last, root, k)
    ensures NonNegativeRows(Finish(Run(setup, events), final, ended).rows, k)
  {
    RunClimbs(root, setup, first, inputs, events, states, k);
    TotalsClimb(states[|inputs|], last, root, ts, final, k);
    NoNegativeStage(setup, events, TotalsOf(states), final, ended, k);
  }

  ghost function TotalsOf(states: seq<TrackerState>): (totals: seq<Reading>)
    ensures |totals| == |states| && forall i :: 0 <= i < |states| ==> totals[i] == Totals(states[i].last)
  {
    seq(|states|, i requires 0 <= i < |states| => Totals(states[i].last))
  }

  lemma RunClimbs(root: int, setup: Setup, first: Observation, inputs: seq<Input>, events: seq<Event>,
                  states: seq<TrackerState>, k: Counter)
    requires Witnessed(root, setup, inputs, events, states) && ForwardRun(root, setup, inputs, events, states, k)
    requires Taken(TrackerState(map[], Peaks(0, 0, 0)), first, root, states[0], setup.baseline)
    ensures Climbs(setup, events, TotalsOf(states), k)
  {
    var totals := TotalsOf(states);
    forall i | 0 <= i < |events| ensures ClimbsAt(Run(setup, events[..i]), events[i], totals[i], totals[i + 1], k) {
      TurnClimbs(root, Run(setup, events[..i]), inputs[i], events[i], states[i], states[i + 1], k);
    }
  }

  lemma TurnClimbs(root: int, s: State, input: Input, e: Event, ts: TrackerState, ts': TrackerState, k: Counter)
    requires TurnOf(root, s, input, e, ts, ts') && (Snaps(s, e) ==> Forward(ts, input.obs, root, k))
    ensures ClimbsAt(s, e, Totals(ts.last), Totals(ts'.last), k)
  {
    if Snaps(s, e) {
      TotalsClimb(ts, input.obs, root, ts', e.snap, k);
    }
  }

  lemma TotalsClimb(ts: TrackerState, obs: Observation, root: int, ts': TrackerState, snap: Snapshot, k: Counter)
    requires Forward(ts, obs, root, k) && Taken(ts, obs, root, ts', snap)
    ensures snap.totals == Totals(ts'.last) && NotBelow(snap.totals, Totals(ts.last), k)
  {
    TotalsNeverDecrease(ts, obs, root, ts', snap, k);
  }
}

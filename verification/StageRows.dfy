/** What the rows of the stage loop report, read off the events alone: benchmarks/benchmark_mlff_prepare_o0.py. */
module StageRows {
  import opened ProcessTree
  import opened StageMeter
  import opened Options

  predicate Names(e: Event) { e.Line? && e.stage.Some? }

  /** The stage of the last line that names one. */
  function Named(events: seq<Event>): string {
    if events == [] then "startup"
    else
      var n := |events| - 1;
      if Names(events[n]) then events[n].stage.value else Named(events[..n])
  }

  /** Line i opens a stage: it names another than the lines before it. */
  predicate Opens(events: seq<Event>, i: nat)
    requires i < |events|
  {
    Names(events[i]) && events[i].stage.value != Named(events[..i])
  }

  /** The lines that open a stage, in order. */
  function Openings(events: seq<Event>): (r: seq<nat>)
    ensures forall i, j :: 0 <= i < j < |r| ==> r[i] < r[j]
    ensures forall i: nat :: i in r <==> i < |events| && Opens(events, i)
  {
    if events == [] then []
    else
      var n := |events| - 1;
      PrefixOpens(events);
      assert forall i :: 0 <= i < |Openings(events[..n])| ==> Openings(events[..n])[i] in Openings(events[..n]);
      if Opens(events, n) then Openings(events[..n]) + [n] else Openings(events[..n])
  }

  lemma PrefixOpens(events: seq<Event>)
    requires events != []
    ensures forall i: nat :: i < |events| - 1 ==> Opens(events[..|events| - 1], i) == Opens(events, i)
  {
    forall i: nat | i < |events| - 1 ensures Opens(events[..|events| - 1], i) == Opens(events, i) {
      assert events[..|events| - 1][..i] == events[..i];
    }
  }

  /** When the next sample is due: an interval after the last one, or after the start. */
  function NextDue(setup: Setup, events: seq<Event>): real {
    if events == [] then setup.started + setup.interval
    else
      var n := |events| - 1;
      var before := NextDue(setup, events[..n]);
      if events[n].Tick? && events[n].now >= before then events[n].now + setup.interval else before
  }

  predicate Due(setup: Setup, events: seq<Event>, i: nat)
    requires i < |events|
  {
    events[i].Tick? && events[i].now >= NextDue(setup, events[..i])
  }

  lemma {:induction false} LastNamed(events: seq<Event>)
    ensures (forall i :: 0 <= i < |events| ==> !Names(events[i])) ==> Named(events) == "startup"
    ensures forall i :: 0 <= i < |events| && Names(events[i]) && (forall j :: i < j < |events| ==> !Names(events[j]))
              ==> Named(events) == events[i].stage.value
  {
    if events != [] {
      var n := |events| - 1;
      LastNamed(events[..n]);
      forall i | 0 <= i < |events| && Names(events[i]) && (forall j :: i < j < |events| ==> !Names(events[j]))
        ensures Named(events) == events[i].stage.value
      {
        if i < n {
          assert !Names(events[n]);
          assert events[..n][i] == events[i];
        }
      }
    }
  }

  lemma PrefixDue(setup: Setup, events: seq<Event>, i: nat)
    requires i < |events| - 1
    ensures Due(setup, events[..|events| - 1], i) == Due(setup, events, i)
  {
    assert events[..|events| - 1][..i] == events[..i];
  }

  lemma {:induction false} LastDue(setup: Setup, events: seq<Event>, i: nat)
    requires i < |events| && Due(setup, events, i) && forall j :: i < j < |events| ==> !Due(setup, events, j)
    ensures NextDue(setup, events) == events[i].now + setup.interval
  {
    var n := |events| - 1;
    if i < n {
      PrefixDue(setup, events, i);
      forall j | i < j < n ensures !Due(setup, events[..n], j) {
        PrefixDue(setup, events, j);
      }
      LastDue(setup, events[..n], i);
      assert !Due(setup, events, n);
    }
  }

  lemma {:induction false} NoneDue(setup: Setup, events: seq<Event>)
    requires forall j :: 0 <= j < |events| ==> !Due(setup, events, j)
    ensures NextDue(setup, events) == setup.started + setup.interval
  {
    if events != [] {
      var n := |events| - 1;
      forall j | 0 <= j < n ensures !Due(setup, events[..n], j) {
        PrefixDue(setup, events, j);
      }
      NoneDue(setup, events[..n]);
      assert !Due(setup, events, n);
    }
  }

  /** Where a stage begins. */
  datatype Opening = Opening(stage: string, time: real, snap: Snapshot)

  function OpeningOf(setup: Setup, events: seq<Event>, k: nat): Opening
    requires k <= |Openings(events)|
  {
    if k == 0 then Opening("startup", setup.started, setup.baseline)
    else
      assert Openings(events)[k - 1] in Openings(events);
      var e := events[Openings(events)[k - 1]];
      Opening(e.stage.value, e.time, e.snap)
  }

  /** i lies after the line that opens stage k and before the next. */
  predicate Within(openings: seq<nat>, k: nat, i: nat)
    requires k <= |openings|
  {
    (k > 0 ==> openings[k - 1] < i) && (k < |openings| ==> i < openings[k])
  }

  /** Event i is a due tick in stage k. */
  predicate SampledAt(setup: Setup, events: seq<Event>, k: nat, i: nat, snap: Snapshot)
    requires k <= |Openings(events)| && i < |events|
  {
    Due(setup, events, i) && Within(Openings(events), k, i) && snap == events[i].snap
  }

  /** A snapshot of stage k: the one it began with, that of a due tick, or for the stage open at the
      end the last one, if it has been taken. */
  ghost predicate TakenIn(setup: Setup, events: seq<Event>, last: Option<Snapshot>, k: nat, snap: Snapshot)
    requires k <= |Openings(events)|
  {
    || snap == OpeningOf(setup, events, k).snap
    || (exists i :: 0 <= i < |events| && SampledAt(setup, events, k, i, snap))
    || (k == |Openings(events)| && last == Some(snap))
  }

  /** The peaks bound every snapshot of stage k, and each of the three is reached by one. */
  ghost predicate StagePeaks(setup: Setup, events: seq<Event>, last: Option<Snapshot>, k: nat, peaks: Peaks)
    requires k <= |Openings(events)|
  {
    && (forall snap :: TakenIn(setup, events, last, k, snap) ==>
          && snap.current.rss <= peaks.rss
          && snap.current.processes <= peaks.processes
          && snap.current.threads <= peaks.threads)
    && (exists snap :: TakenIn(setup, events, last, k, snap) && snap.current.rss == peaks.rss)
    && (exists snap :: TakenIn(setup, events, last, k, snap) && snap.current.processes == peaks.processes)
    && (exists snap :: TakenIn(setup, events, last, k, snap) && snap.current.threads == peaks.threads)
  }

  /** The row of stage k, all but its peaks: from where it begins to where it ends. */
  predicate RowOf(row: Row, begin: Opening, end: Opening, line: Option<string>) {
    && row.stage == begin.stage && row.wall == end.time - begin.time && row.line == line
    && row.counters == Delta(end.snap, begin.snap)
  }

  predicate TransitionOf(t: Transition, setup: Setup, begin: Opening, end: Opening, line: string) {
    t.from == begin.stage && t.to == end.stage && t.at == end.time - setup.started && t.line == line
  }

  /** Row k and transition k of a stage that has ended. */
  ghost predicate ClosedAt(setup: Setup, events: seq<Event>, k: nat, row: Row, t: Transition)
    requires k < |Openings(events)|
  {
    assert Openings(events)[k] in Openings(events);
    var begin, end := OpeningOf(setup, events, k), OpeningOf(setup, events, k + 1);
    var text := events[Openings(events)[k]].text;
    && RowOf(row, begin, end, Some(text)) && TransitionOf(t, setup, begin, end, text)
    && StagePeaks(setup, events, None, k, row.peaks)
  }

  /** The state of the loop in terms of the events before it. */
  ghost predicate ReadOff(setup: Setup, events: seq<Event>, s: State) {
    var n := |Openings(events)|;
    && s.current == Named(events) && s.nextSample == NextDue(setup, events)
    && OpeningOf(setup, events, n) == Opening(s.current, s.stageStarted, s.stageBefore)
    && |s.rows| == |s.transitions| == n
    && StagePeaks(setup, events, None, n, s.peaks)
    && forall k :: 0 <= k < n ==> ClosedAt(setup, events, k, s.rows[k], s.transitions[k])
  }

  // ----- One more event

  lemma OneMore(setup: Setup, events: seq<Event>, e: Event)
    ensures var more, n := events + [e], |events|;
            && Openings(more) == Openings(events) + (if Opens(more, n) then [n] else [])
            && Opens(more, n) == (Names(e) && e.stage.value != Named(events))
            && Named(more) == (if Names(e) then e.stage.value else Named(events))
            && Due(setup, more, n) == (e.Tick? && e.now >= NextDue(setup, events))
            && NextDue(setup, more) == (if Due(setup, more, n) then e.now + setup.interval else NextDue(setup, events))
            && forall i :: 0 <= i < n ==> Due(setup, more, i) == Due(setup, events, i)
  {
    var more := events + [e];
    assert more[..|events|] == events;
    forall i | 0 <= i < |events| ensures Due(setup, more, i) == Due(setup, events, i) {
      assert more[..i] == events[..i];
    }
  }

  lemma SameOpening(setup: Setup, events: seq<Event>, e: Event, k: nat)
    requires k <= |Openings(events)|
    ensures k <= |Openings(events + [e])| && OpeningOf(setup, events + [e], k) == OpeningOf(setup, events, k)
  {
    OneMore(setup, events, e);
    if k > 0 {
      assert Openings(events)[k - 1] in Openings(events);
    }
  }

  lemma StillSampled(setup: Setup, events: seq<Event>, e: Event, k: nat, i: nat, snap: Snapshot)
    requires k <= |Openings(events)| && i < |events|
    ensures k <= |Openings(events + [e])|
    ensures SampledAt(setup, events + [e], k, i, snap) <==> SampledAt(setup, events, k, i, snap)
  {
    OneMore(setup, events, e);
  }

  lemma LastSampled(setup: Setup, events: seq<Event>, e: Event, k: nat, snap: Snapshot)
    requires k <= |Openings(events)|
    ensures k <= |Openings(events + [e])|
    ensures SampledAt(setup, events + [e], k, |events|, snap) <==>
              k == |Openings(events)| && Due(setup, events + [e], |events|) && snap == e.snap
  {
    OneMore(setup, events, e);
    assert k < |Openings(events)| ==> Openings(events)[k] in Openings(events);
    assert k > 0 ==> Openings(events)[k - 1] in Openings(events);
  }

  lemma StillTaken(setup: Setup, events: seq<Event>, e: Event, k: nat, snap: Snapshot)
    requires k <= |Openings(events)|
    ensures k <= |Openings(events + [e])|
    ensures TakenIn(setup, events + [e], None, k, snap) <==>
              || TakenIn(setup, events, None, k, snap)
              || (k == |Openings(events)| && Due(setup, events + [e], |events|) && snap == e.snap)
  {
    SameOpening(setup, events, e, k);
    LastSampled(setup, events, e, k, snap);
    forall i | 0 <= i < |events|
      ensures SampledAt(setup, events + [e], k, i, snap) <==> SampledAt(setup, events, k, i, snap)
    {
      StillSampled(setup, events, e, k, i, snap);
    }
  }

  lemma FirstTaken(setup: Setup, events: seq<Event>, e: Event, snap: Snapshot)
    requires Opens(events + [e], |events|)
    ensures var k := |Openings(events)| + 1;
            k == |Openings(events + [e])| && (TakenIn(setup, events + [e], None, k, snap) <==> snap == e.snap)
  {
    OneMore(setup, events, e);
  }

  /** One more snapshot raises the peaks. */
  lemma PeaksRaised(setup: Setup, events: seq<Event>, last: Option<Snapshot>, more: seq<Event>,
                    last': Option<Snapshot>, k: nat, peaks: Peaks, snap: Snapshot)
    requires k <= |Openings(events)| && k <= |Openings(more)| && StagePeaks(setup, events, last, k, peaks)
    requires forall s :: TakenIn(setup, more, last', k, s) <==> TakenIn(setup, events, last, k, s) || s == snap
    ensures StagePeaks(setup, more, last', k, MaxPeaks(peaks, snap.current))
  {
  }

  lemma PeaksKept(setup: Setup, events: seq<Event>, last: Option<Snapshot>, more: seq<Event>,
                  last': Option<Snapshot>, k: nat, peaks: Peaks)
    requires k <= |Openings(events)| && k <= |Openings(more)| && StagePeaks(setup, events, last, k, peaks)
    requires forall s :: TakenIn(setup, more, last', k, s) <==> TakenIn(setup, events, last, k, s)
    ensures StagePeaks(setup, more, last', k, peaks)
  {
  }

  lemma StillClosed(setup: Setup, events: seq<Event>, e: Event, k: nat, row: Row, t: Transition)
    requires k < |Openings(events)| && ClosedAt(setup, events, k, row, t)
    ensures k < |Openings(events + [e])| && ClosedAt(setup, events + [e], k, row, t)
  {
    OneMore(setup, events, e);
    SameOpening(setup, events, e, k);
    SameOpening(setup, events, e, k + 1);
    assert Openings(events)[k] in Openings(events);
    forall snap ensures TakenIn(setup, events + [e], None, k, snap) <==> TakenIn(setup, events, None, k, snap) {
      StillTaken(setup, events, e, k, snap);
    }
    PeaksKept(setup, events, None, events + [e], None, k, row.peaks);
  }

  lemma OpensRow(setup: Setup, events: seq<Event>, s: State, e: Event)
    requires ReadOff(setup, events, s) && Opens(events + [e], |events|)
    ensures ReadOff(setup, events + [e], Step(setup, s, e))
  {
    var more, n, s' := events + [e], |Openings(events)|, Step(setup, s, e);
    OneMore(setup, events, e);
    SameOpening(setup, events, e, n);
    forall snap
      ensures TakenIn(setup, more, None, n, snap) <==> TakenIn(setup, events, None, n, snap)
      ensures TakenIn(setup, more, None, n + 1, snap) <==> snap == e.snap
    {
      StillTaken(setup, events, e, n, snap);
      FirstTaken(setup, events, e, snap);
    }
    PeaksKept(setup, events, None, more, None, n, s.peaks);
    assert ClosedAt(setup, more, n, s'.rows[n], s'.transitions[n]);
    forall k | 0 <= k < n + 1 ensures ClosedAt(setup, more, k, s'.rows[k], s'.transitions[k]) {
      if k < n {
        StillClosed(setup, events, e, k, s.rows[k], s.transitions[k]);
      }
    }
  }

  lemma OpensNone(setup: Setup, events: seq<Event>, s: State, e: Event)
    requires ReadOff(setup, events, s) && !Opens(events + [e], |events|)
    ensures ReadOff(setup, events + [e], Step(setup, s, e))
  {
    var more, n := events + [e], |Openings(events)|;
    OneMore(setup, events, e);
    SameOpening(setup, events, e, n);
    forall snap
      ensures TakenIn(setup, more, None, n, snap) <==>
                TakenIn(setup, events, None, n, snap) || (Due(setup, more, |events|) && snap == e.snap)
    {
      StillTaken(setup, events, e, n, snap);
    }
    if Due(setup, more, |events|) {
      PeaksRaised(setup, events, None, more, None, n, s.peaks, e.snap);
    } else {
      PeaksKept(setup, events, None, more, None, n, s.peaks);
    }
    forall k | 0 <= k < n ensures ClosedAt(setup, more, k, s.rows[k], s.transitions[k]) {
      StillClosed(setup, events, e, k, s.rows[k], s.transitions[k]);
    }
  }

  /** Every variable of the loop is what the events say. */
  lemma {:induction false} RunReadOff(setup: Setup, events: seq<Event>)
    ensures ReadOff(setup, events, Run(setup, events))
  {
    if events == [] {
      assert TakenIn(setup, [], None, 0, setup.baseline);
    } else {
      var front, e := events[..|events| - 1], events[|events| - 1];
      RunReadOff(setup, front);
      assert events == front + [e];
      if Opens(events, |front|) {
        OpensRow(setup, front, Run(setup, front), e);
      } else {
        OpensNone(setup, front, Run(setup, front), e);
      }
    }
  }

  /** Snapshots are taken for the lines that open a stage and the ticks that are due. */
  lemma SnapsExactly(setup: Setup, events: seq<Event>, i: nat)
    requires i < |events|
    ensures Snaps(Run(setup, events[..i]), events[i]) <==> Opens(events, i) || Due(setup, events, i)
  {
    RunReadOff(setup, events[..i]);
  }

  /** The report has one row for each stage opened and one for the start: row k runs from where stage k
      begins to where the next does, and its peaks are the largest of the snapshots of stage k alone. */
  lemma RowsAre(setup: Setup, events: seq<Event>, last: Snapshot, ended: real)
    ensures var p, n := Finish(Run(setup, events), last, ended), |Openings(events)|;
            && |p.rows| == n + 1 && |p.transitions| == n
            && (forall k :: 0 <= k < n ==> ClosedAt(setup, events, k, p.rows[k], p.transitions[k]))
            && RowOf(p.rows[n], OpeningOf(setup, events, n), Opening("", ended, last), None)
            && StagePeaks(setup, events, Some(last), n, p.rows[n].peaks)
  {
    RunReadOff(setup, events);
    var s, n := Run(setup, events), |Openings(events)|;
    PeaksRaised(setup, events, None, events, Some(last), n, s.peaks, last);
  }

  /** The peaks of the whole run bound those of every row, and each of the three is reached by one. */
  ghost predicate LargestOf(rows: seq<Row>, peak: Peaks) {
    && (forall k :: 0 <= k < |rows| ==>
          && rows[k].peaks.rss <= peak.rss
          && rows[k].peaks.processes <= peak.processes
          && rows[k].peaks.threads <= peak.threads)
    && (exists k :: 0 <= k < |rows| && rows[k].peaks.rss == peak.rss)
    && (exists k :: 0 <= k < |rows| && rows[k].peaks.processes == peak.processes)
    && (exists k :: 0 <= k < |rows| && rows[k].peaks.threads == peak.threads)
  }

  lemma {:induction false} MaxRowsIs(rows: seq<Row>)
    requires rows != []
    ensures LargestOf(rows, MaxRows(rows))
  {
    var n := |rows| - 1;
    if n > 0 {
      MaxRowsIs(rows[..n]);
    }
    assert MaxRows(rows) == MaxPeaks(MaxRows(rows[..n]), rows[n].peaks);
  }

  lemma OverallPeaks(setup: Setup, events: seq<Event>, last: Snapshot, ended: real)
    ensures var p := Finish(Run(setup, events), last, ended); LargestOf(p.rows, p.peak)
  {
    Conservation(setup, events, last, ended);
    MaxRowsIs(Finish(Run(setup, events), last, ended).rows);
  }
}

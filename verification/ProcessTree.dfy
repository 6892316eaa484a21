/** Descendants of a process and the counters summed over them (_process_tree and _ProcTreeTracker
    of benchmarks/benchmark_mlff_prepare_o0.py). */
module ProcessTree {
  import opened Counting
  import opened Options
  import opened Reachability

  /** Contents of the `children` files; a pid without an entry could not be read. */
  type Children = map<int, seq<int>>

  function ChildrenOf(c: Children, pid: int): seq<int> { if pid in c then c[pid] else [] }

  function Next(c: Children): int -> set<int> { (pid: int) => set k | k in ChildrenOf(c, pid) }

  function Universe(c: Children, root: int): set<int> {
    {root} + set p, k | p in c && k in c[p] :: k
  }

  lemma UniverseClosed(c: Children, root: int)
    ensures Closed(Next(c), Universe(c, root))
  {
    forall v, k | k in Next(c)(v) ensures k in Universe(c, root) {
      assert v in c && k in c[v];
    }
  }

  /** The processes reachable from the root: itself, its children, theirs, and so on. */
  ghost function Descendants(c: Children, root: int): (s: set<int>)
    ensures forall p :: p in s <==> Reaches(Next(c), root, p)
  {
    forall p | Reaches(Next(c), root, p) ensures p in Universe(c, root) {
      UniverseClosed(c, root);
      StaysInside(Next(c), root, p, Universe(c, root));
    }
    set p | p in Universe(c, root) && Reaches(Next(c), root, p)
  }

  /** What the worklist keeps: it only holds descendants, and the children of what has been seen
      have been seen or are still to come. */
  ghost predicate Working(c: Children, root: int, seen: set<int>, pending: seq<int>) {
    && root in seen + Elements(pending)
    && seen + Elements(pending) <= Descendants(c, root)
    && forall p :: p in seen ==> Next(c)(p) <= seen + Elements(pending)
  }

  lemma WorkingStep(c: Children, root: int, seen: set<int>, pending: seq<int>)
    requires Working(c, root, seen, pending) && pending != []
    ensures var pid, rest := pending[|pending| - 1], pending[..|pending| - 1];
            if pid in seen then Working(c, root, seen, rest)
            else Working(c, root, seen + {pid}, rest + ChildrenOf(c, pid))
  {
    var pid, rest := pending[|pending| - 1], pending[..|pending| - 1];
    PopElements(pending);
    if pid !in seen {
      PushElements(rest, ChildrenOf(c, pid));
      ChildrenReached(c, root, pid);
    }
  }

  lemma PopElements(pending: seq<int>)
    requires pending != []
    ensures Elements(pending) == Elements(pending[..|pending| - 1]) + {pending[|pending| - 1]}
  {
    assert pending == pending[..|pending| - 1] + [pending[|pending| - 1]];
  }

  lemma PushElements(rest: seq<int>, more: seq<int>)
    ensures Elements(rest + more) == Elements(rest) + set k | k in more
  {
  }

  lemma ChildrenReached(c: Children, root: int, pid: int)
    requires pid in Descendants(c, root)
    ensures Next(c)(pid) <= Descendants(c, root)
  {
    forall k | k in Next(c)(pid) ensures k in Descendants(c, root) {
      ReachesStep(Next(c), root, pid, k);
    }
  }

  lemma WorkDone(c: Children, root: int, seen: set<int>)
    requires Working(c, root, seen, [])
    ensures seen == Descendants(c, root)
  {
    forall p | p in Descendants(c, root) ensures p in seen {
      StaysInside(Next(c), root, p, seen);
    }
  }

  /** One turn of the worklist. */
  method Work(c: Children, ghost root: int, seen: set<int>, pending: seq<int>)
    returns (seen': set<int>, pending': seq<int>)
    requires Working(c, root, seen, pending) && pending != []
    ensures Working(c, root, seen', pending')
    ensures (seen' == seen && |pending'| < |pending|)
         || (seen < seen' && |Descendants(c, root) - seen'| < |Descendants(c, root) - seen|)
  {
    var pid := pending[|pending| - 1];
    WorkingStep(c, root, seen, pending);
    pending' := pending[..|pending| - 1];
    if pid in seen {
      seen' := seen;
    } else {
      seen' := seen + {pid};
      pending' := pending' + ChildrenOf(c, pid);
      ghost var left := Descendants(c, root) - seen;
      assert pid in Elements(pending) && pid in left;
      assert Descendants(c, root) - seen' == left - {pid};
    }
  }

  /** _process_tree against a fixed child relation, which may have cycles and duplicates. */
  method ProcessTreeOf(c: Children, root: int) returns (pids: seq<int>)
    ensures pids == SortedInts(Descendants(c, root))
  {
    var pending := [root];
    var seen: set<int> := {};
    ReachesSelf(Next(c), root);
    while pending != []
      invariant Working(c, root, seen, pending)
      decreases |Descendants(c, root) - seen|, |pending|
    {
      seen, pending := Work(c, root, seen, pending);
    }
    WorkDone(c, root, seen);
    pids := SortedInts(seen);
  }

  /** Any increasing listing of the reachable processes is the one returned. */
  lemma ListingUnique(c: Children, root: int, pids: seq<int>)
    requires Ascending(AtMostInt, pids) && forall p :: p in pids <==> Reaches(Next(c), root, p)
    ensures pids == SortedInts(Descendants(c, root))
  {
    var found := Descendants(c, root);
    var listing := SortedInts(found);
    IntsOrdered();
    forall p: int ensures p in pids <==> p in listing {
      assert p in found <==> Reaches(Next(c), root, p);
    }
    AscendingUnique(AtMostInt, pids, listing);
  }

  // ----- The tracker

  datatype Reading = Reading(user: real, system: real, readBytes: real, writeBytes: real)

  datatype Counter = User | System | ReadBytes | WriteBytes

  function Value(r: Reading, k: Counter): real {
    match k
    case User => r.user
    case System => r.system
    case ReadBytes => r.readBytes
    case WriteBytes => r.writeBytes
  }

  /** What /proc shows at one moment. A pid without a stat entry is skipped; missing io or status
      entries read as zero. */
  datatype Observation = Observation(
    children: Children,
    stat: map<int, (real, real)>,
    io: map<int, (real, real)>,
    status: map<int, (nat, nat)>)

  datatype Peaks = Peaks(rss: nat, processes: nat, threads: nat)

  function MaxPeaks(a: Peaks, b: Peaks): Peaks {
    Peaks(Max(a.rss, b.rss), Max(a.processes, b.processes), Max(a.threads, b.threads))
  }

  datatype Snapshot = Snapshot(totals: Reading, current: Peaks, seenProcesses: nat)

  datatype TrackerState = TrackerState(last: map<int, Reading>, peak: Peaks)

  function ReadingOf(obs: Observation, pid: int): Reading
    requires pid in obs.stat
  {
    var io := if pid in obs.io then obs.io[pid] else (0.0, 0.0);
    Reading(obs.stat[pid].0, obs.stat[pid].1, io.0, io.1)
  }

  function StatusOf(obs: Observation, pid: int): (nat, nat) {
    if pid in obs.status then obs.status[pid] else (0, 0)
  }

  /** The readings one snapshot takes. */
  function ReadingsOf(obs: Observation, pids: set<int>): map<int, Reading> {
    map p | p in pids && p in obs.stat :: ReadingOf(obs, p)
  }

  function RssOf(obs: Observation, pids: seq<int>): nat {
    if pids == [] then 0
    else RssOf(obs, pids[..|pids| - 1])
         + if pids[|pids| - 1] in obs.stat then StatusOf(obs, pids[|pids| - 1]).0 else 0
  }

  function ThreadsOf(obs: Observation, pids: seq<int>): nat {
    if pids == [] then 0
    else ThreadsOf(obs, pids[..|pids| - 1])
         + if pids[|pids| - 1] in obs.stat then StatusOf(obs, pids[|pids| - 1]).1 else 0
  }

  /** Sum of f over a finite set. */
  ghost function SumOver(s: set<int>, f: int -> real): real
    decreases |s|
  {
    if s == {} then 0.0 else f(AnyOf(s)) + SumOver(s - {AnyOf(s)}, f)
  }

  function ValueAt(m: map<int, Reading>, k: Counter): int -> real {
    (p: int) => if p in m then Value(m[p], k) else 0.0
  }

  ghost function Total(last: map<int, Reading>, k: Counter): real { SumOver(last.Keys, ValueAt(last, k)) }

  ghost function Totals(last: map<int, Reading>): Reading {
    Reading(Total(last, User), Total(last, System), Total(last, ReadBytes), Total(last, WriteBytes))
  }

  ghost function Current(obs: Observation, root: int): Peaks {
    var pids := SortedInts(Descendants(obs.children, root));
    Peaks(RssOf(obs, pids), |pids|, ThreadsOf(obs, pids))
  }

  /** State and report of a tracker that takes a snapshot. */
  ghost function Take(ts: TrackerState, obs: Observation, root: int): TrackerState {
    TrackerState(ts.last + ReadingsOf(obs, Descendants(obs.children, root)), MaxPeaks(ts.peak, Current(obs, root)))
  }

  ghost function Report(ts: TrackerState, obs: Observation, root: int): Snapshot {
    var last := Take(ts, obs, root).last;
    Snapshot(Totals(last), Current(obs, root), |last|)
  }

  method Choose<T(==)>(s: set<T>) returns (x: T)
    requires s != {}
    ensures x in s
  {
    x :| x in s;
  }

  lemma ReadingsMore(obs: Observation, last: map<int, Reading>, pids: seq<int>, i: nat)
    requires i < |pids|
    ensures last + ReadingsOf(obs, Elements(pids[..i + 1]))
         == if pids[i] in obs.stat
            then (last + ReadingsOf(obs, Elements(pids[..i])))[pids[i] := ReadingOf(obs, pids[i])]
            else last + ReadingsOf(obs, Elements(pids[..i]))
    ensures RssOf(obs, pids[..i + 1]) ==
              RssOf(obs, pids[..i]) + if pids[i] in obs.stat then StatusOf(obs, pids[i]).0 else 0
    ensures ThreadsOf(obs, pids[..i + 1]) ==
              ThreadsOf(obs, pids[..i]) + if pids[i] in obs.stat then StatusOf(obs, pids[i]).1 else 0
  {
    assert pids[..i + 1][..i] == pids[..i];
    assert Elements(pids[..i + 1]) == Elements(pids[..i]) + {pids[i]};
  }

  /** A tracker in state ts takes a snapshot of obs, reports `snap` and is left in state ts'. */
  ghost predicate Taken(ts: TrackerState, obs: Observation, root: int, ts': TrackerState, snap: Snapshot) {
    ts' == Take(ts, obs, root) && snap == Report(ts, obs, root)
  }

  class Tracker {
    const root: int
    var last: map<int, Reading>
    var peakRss: nat
    var peakProcesses: nat
    var peakThreads: nat

    ghost function State(): TrackerState
      reads this
    {
      TrackerState(last, Peaks(peakRss, peakProcesses, peakThreads))
    }

    constructor (root: int)
      ensures this.root == root && State() == TrackerState(map[], Peaks(0, 0, 0))
    {
      this.root := root;
      last, peakRss, peakProcesses, peakThreads := map[], 0, 0, 0;
    }

    /** The loop over the processes: their readings, and the memory and threads in use. */
    method ReadAll(obs: Observation, pids: seq<int>) returns (rss: nat, threads: nat)
      modifies this`last
      ensures last == old(last) + ReadingsOf(obs, Elements(pids))
      ensures rss == RssOf(obs, pids) && threads == ThreadsOf(obs, pids)
    {
      rss, threads := 0, 0;
      for i := 0 to |pids|
        invariant last == old(last) + ReadingsOf(obs, Elements(pids[..i]))
        invariant rss == RssOf(obs, pids[..i]) && threads == ThreadsOf(obs, pids[..i])
      {
        var pid := pids[i];
        ReadingsMore(obs, old(last), pids, i);
        if pid in obs.stat {
          last := last[pid := ReadingOf(obs, pid)];
          rss := rss + StatusOf(obs, pid).0;
          threads := threads + StatusOf(obs, pid).1;
        }
      }
      assert pids[..|pids|] == pids;
    }

    method SumLast(k: Counter) returns (total: real)
      ensures total == Total(last, k)
    {
      total := 0.0;
      var todo := last.Keys;
      while todo != {}
        invariant todo <= last.Keys && total + SumOver(todo, ValueAt(last, k)) == Total(last, k)
        decreases |todo|
      {
        var pid := Choose(todo);
        SumOverAny(todo, ValueAt(last, k), pid);
        total := total + Value(last[pid], k);
        todo := todo - {pid};
      }
    }

    method SumAll() returns (totals: Reading)
      ensures totals == Totals(last)
    {
      var user := SumLast(User);
      var system := SumLast(System);
      var readBytes := SumLast(ReadBytes);
      var writeBytes := SumLast(WriteBytes);
      totals := Reading(user, system, readBytes, writeBytes);
    }

    method RaisePeaks(current: Peaks)
      modifies this`peakRss, this`peakProcesses, this`peakThreads
      ensures State() == TrackerState(last, MaxPeaks(old(State()).peak, current))
    {
      peakRss := Max(peakRss, current.rss);
      peakProcesses := Max(peakProcesses, current.processes);
      peakThreads := Max(peakThreads, current.threads);
    }

    method TakeSnapshot(obs: Observation) returns (snap: Snapshot)
      modifies this
      ensures Taken(old(State()), obs, root, State(), snap)
      ensures State().peak == MaxPeaks(old(State()).peak, snap.current)
    {
      var pids := ProcessTreeOf(obs.children, root);
      var currentRss, currentThreads := ReadAll(obs, pids);
      assert Elements(pids) == Descendants(obs.children, root);
      var current := Peaks(currentRss, |pids|, currentThreads);
      assert current == Current(obs, root);
      RaisePeaks(current);
      var totals := SumAll();
      snap := Snapshot(totals, current, |last|);
    }
  }

  // ----- How a snapshot moves the totals

  lemma {:induction false} SumOverAny(s: set<int>, f: int -> real, x: int)
    requires x in s
    ensures SumOver(s, f) == f(x) + SumOver(s - {x}, f)
    decreases |s|
  {
    var y := AnyOf(s);
    if x != y {
      SumOverAny(s - {y}, f, x);
      SumOverAny(s - {x}, f, y);
      assert s - {y} - {x} == s - {x} - {y};
    }
  }

  lemma {:induction false} SumOverSame(s: set<int>, f: int -> real, g: int -> real)
    requires forall x :: x in s ==> f(x) == g(x)
    ensures SumOver(s, f) == SumOver(s, g)
    decreases |s|
  {
    if s != {} {
      var x := AnyOf(s);
      SumOverAny(s, f, x);
      SumOverAny(s, g, x);
      SumOverSame(s - {x}, f, g);
    }
  }

  /** Resident memory of a process, and its threads, as its status entry shows them; 0 without one. */
  ghost function RssShown(obs: Observation): int -> real {
    (p: int) => if p in obs.status then obs.status[p].0 as real else 0.0
  }

  ghost function ThreadsShown(obs: Observation): int -> real {
    (p: int) => if p in obs.status then obs.status[p].1 as real else 0.0
  }

  ghost function Readable(obs: Observation, pids: set<int>): set<int> { set p | p in pids && p in obs.stat }

  lemma {:induction false} SumsShown(obs: Observation, pids: seq<int>)
    requires Distinct(pids)
    ensures RssOf(obs, pids) as real == SumOver(Readable(obs, Elements(pids)), RssShown(obs))
    ensures ThreadsOf(obs, pids) as real == SumOver(Readable(obs, Elements(pids)), ThreadsShown(obs))
  {
    if pids == [] {
      assert Readable(obs, Elements(pids)) == {};
    } else {
      var last, pid := |pids| - 1, pids[|pids| - 1];
      SumsShown(obs, pids[..last]);
      var before, after := Readable(obs, Elements(pids[..last])), Readable(obs, Elements(pids));
      assert Elements(pids) == Elements(pids[..last]) + {pid};
      if pid in obs.stat {
        assert after - {pid} == before;
        SumOverAny(after, RssShown(obs), pid);
        SumOverAny(after, ThreadsShown(obs), pid);
      } else {
        assert after == before;
      }
    }
  }

  /** What a snapshot reports as current: memory and threads of the readable processes of the tree
      together, and the number of all of them, readable or not. */
  lemma CurrentIs(obs: Observation, root: int)
    ensures var tree, current := Descendants(obs.children, root), Current(obs, root);
            && current.rss as real == SumOver(Readable(obs, tree), RssShown(obs))
            && current.threads as real == SumOver(Readable(obs, tree), ThreadsShown(obs))
            && current.processes == |tree|
  {
    var tree := Descendants(obs.children, root);
    var pids := SortedInts(tree);
    IntsOrdered();
    SumsShown(obs, pids);
    assert Elements(pids) == tree;
  }

  /** The processes seen are all that were ever read. */
  lemma SeenIs(ts: TrackerState, obs: Observation, root: int, ts': TrackerState, snap: Snapshot)
    requires Taken(ts, obs, root, ts', snap)
    ensures ts'.last.Keys == ts.last.Keys + Readable(obs, Descendants(obs.children, root))
    ensures snap.seenProcesses == |ts'.last.Keys|
  {
  }

  /** How much one process adds to a total: its new reading less the old one, if there was one. */
  function Gain(last: map<int, Reading>, taken: map<int, Reading>, k: Counter): int -> real {
    (p: int) => ValueAt(taken, k)(p) - ValueAt(last, k)(p)
  }

  lemma GainsStep(last: map<int, Reading>, taken: map<int, Reading>, k: Counter, x: int)
    requires x in taken
    ensures SumOver(taken.Keys, Gain(last, taken, k))
         == Gain(last, taken, k)(x) + SumOver((taken - {x}).Keys, Gain(last, taken - {x}, k))
  {
    SumOverAny(taken.Keys, Gain(last, taken, k), x);
    var fewer := taken - {x};
    assert fewer.Keys == taken.Keys - {x};
    forall p | p in fewer.Keys ensures Gain(last, taken, k)(p) == Gain(last, fewer, k)(p) {
      assert p in taken && fewer[p] == taken[p];
      assert ValueAt(taken, k)(p) == Value(taken[p], k) == ValueAt(fewer, k)(p);
      assert Gain(last, fewer, k)(p) == ValueAt(fewer, k)(p) - ValueAt(last, k)(p);
    }
    SumOverSame(taken.Keys - {x}, Gain(last, taken, k), Gain(last, taken - {x}, k));
  }

  lemma TotalStep(last: map<int, Reading>, taken: map<int, Reading>, k: Counter, x: int)
    requires x in taken
    ensures Total(last + taken, k) == Total(last + (taken - {x}), k) + Gain(last, taken, k)(x)
  {
    var fewer := taken - {x};
    assert last + taken == (last + fewer)[x := taken[x]];
    OneMoreReading(last + fewer, x, taken[x], k);
    assert x !in fewer;
    assert ValueAt(last + fewer, k)(x) == ValueAt(last, k)(x);
  }

  /** A snapshot moves each total by the gains of the processes it reads, and by nothing else: a
      process that has vanished keeps its last reading in the total. */
  lemma {:induction false} TotalMovesByGains(last: map<int, Reading>, taken: map<int, Reading>, k: Counter)
    ensures Total(last + taken, k) == Total(last, k) + SumOver(taken.Keys, Gain(last, taken, k))
    decreases |taken.Keys|
  {
    if taken.Keys == {} {
      assert last + taken == last;
    } else {
      var x := AnyOf(taken.Keys);
      assert (taken - {x}).Keys == taken.Keys - {x};
      TotalMovesByGains(last, taken - {x}, k);
      GainsStep(last, taken, k, x);
      TotalStep(last, taken, k, x);
    }
  }

  lemma OneMoreReading(m: map<int, Reading>, x: int, r: Reading, k: Counter)
    ensures Total(m[x := r], k) == Total(m, k) + Value(r, k) - ValueAt(m, k)(x)
  {
    var more := m[x := r];
    SumOverAny(more.Keys, ValueAt(more, k), x);
    if x in m {
      assert more.Keys == m.Keys;
      SumOverAny(m.Keys, ValueAt(m, k), x);
      SumOverSame(m.Keys - {x}, ValueAt(more, k), ValueAt(m, k));
    } else {
      assert more.Keys - {x} == m.Keys;
      SumOverSame(m.Keys, ValueAt(more, k), ValueAt(m, k));
    }
  }

  lemma {:induction false} SumOverNonNegative(s: set<int>, f: int -> real)
    requires forall x :: x in s ==> f(x) >= 0.0
    ensures SumOver(s, f) >= 0.0
    decreases |s|
  {
    if s != {} {
      var x := AnyOf(s);
      SumOverAny(s, f, x);
      SumOverNonNegative(s - {x}, f);
    }
  }

  /** No process the snapshot reads counts backwards in k between its last reading and this one. */
  ghost predicate Forward(ts: TrackerState, obs: Observation, root: int, k: Counter) {
    var taken := ReadingsOf(obs, Descendants(obs.children, root));
    forall p :: p in taken ==> ValueAt(ts.last, k)(p) <= Value(taken[p], k)
  }

  lemma TotalsValue(last: map<int, Reading>, k: Counter)
    ensures Value(Totals(last), k) == Total(last, k)
  {
    var t := Totals(last);
    match k
    case User => assert t.user == Total(last, User);
    case System => assert t.system == Total(last, System);
    case ReadBytes => assert t.readBytes == Total(last, ReadBytes);
    case WriteBytes => assert t.writeBytes == Total(last, WriteBytes);
  }

  /** Processes may come and go: while no single one counts backwards, the total never falls. */
  lemma TotalsNeverDecrease(ts: TrackerState, obs: Observation, root: int, ts': TrackerState, snap: Snapshot,
                            k: Counter)
    requires Forward(ts, obs, root, k) && Taken(ts, obs, root, ts', snap)
    ensures snap.totals == Totals(ts'.last) && Value(Totals(ts.last), k) <= Value(snap.totals, k)
  {
    var taken := ReadingsOf(obs, Descendants(obs.children, root));
    TotalsValue(ts.last, k);
    TotalsValue(ts'.last, k);
    TotalMovesByGains(ts.last, taken, k);
    SumOverNonNegative(taken.Keys, Gain(ts.last, taken, k));
  }

  // ----- What the kernel has to promise for that

  /** The value of k in the files of p, where they can be read. */
  function Shown(obs: Observation, p: int, k: Counter): Option<real> {
    match k
    case User => if p in obs.stat then Some(obs.stat[p].0) else None
    case System => if p in obs.stat then Some(obs.stat[p].1) else None
    case ReadBytes => if p in obs.stat && p in obs.io then Some(obs.io[p].0) else None
    case WriteBytes => if p in obs.stat && p in obs.io then Some(obs.io[p].1) else None
  }

  /** What the files show of k never falls below the last reading. */
  ghost predicate Monotone(ts: TrackerState, obs: Observation, root: int, k: Counter) {
    forall p :: p in Descendants(obs.children, root) && Shown(obs, p, k).Some? ==>
      ValueAt(ts.last, k)(p) <= Shown(obs, p, k).value
  }

  /** The processes whose stat entry can be read while the file of k cannot: k is taken to be zero. */
  ghost function Blanked(obs: Observation, root: int, k: Counter): set<int> {
    set p | p in Descendants(obs.children, root) && p in obs.stat && Shown(obs, p, k).None?
  }

  lemma ReadingShown(obs: Observation, p: int, k: Counter)
    requires p in obs.stat
    ensures Value(ReadingOf(obs, p), k) == if Shown(obs, p, k).Some? then Shown(obs, p, k).value else 0.0
  {
  }

  /** CPU times need monotone stat entries and nothing else. */
  lemma CpuForward(ts: TrackerState, obs: Observation, root: int, k: Counter)
    requires k == User || k == System
    ensures Forward(ts, obs, root, k) <==> Monotone(ts, obs, root, k)
  {
    var taken := ReadingsOf(obs, Descendants(obs.children, root));
    forall p | p in taken ensures Shown(obs, p, k).Some? && Value(taken[p], k) == Shown(obs, p, k).value {
      ReadingShown(obs, p, k);
    }
    assert forall p :: p in Descendants(obs.children, root) && Shown(obs, p, k).Some? ==> p in taken;
  }

  lemma {:induction false} SumOverSplit(s: set<int>, t: set<int>, f: int -> real)
    requires s !! t
    ensures SumOver(s + t, f) == SumOver(s, f) + SumOver(t, f)
    decreases |s|
  {
    if s == {} {
      assert s + t == t;
    } else {
      var x := AnyOf(s);
      SumOverAny(s + t, f, x);
      assert s + t - {x} == (s - {x}) + t;
      SumOverSplit(s - {x}, t, f);
    }
  }

  lemma {:induction false} SumOverNegated(s: set<int>, f: int -> real, g: int -> real)
    requires forall x :: x in s ==> f(x) == -g(x)
    ensures SumOver(s, f) == -SumOver(s, g)
    decreases |s|
  {
    if s != {} {
      var x := AnyOf(s);
      assert f(x) == -g(x);
      SumOverNegated(s - {x}, f, g);
    }
  }

  /** With monotone counters a total falls exactly when the last readings of the processes whose file
      could not be read this time outweigh what the others have gained. */
  lemma TotalFallsExactly(ts: TrackerState, obs: Observation, root: int, ts': TrackerState, snap: Snapshot, k: Counter)
    requires Taken(ts, obs, root, ts', snap) && Monotone(ts, obs, root, k)
    ensures var taken := ReadingsOf(obs, Descendants(obs.children, root));
            var blanked := Blanked(obs, root, k);
            var gained := SumOver(taken.Keys - blanked, Gain(ts.last, taken, k));
            && gained >= 0.0
            && Value(snap.totals, k) == Value(Totals(ts.last), k) + gained - SumOver(blanked, ValueAt(ts.last, k))
            && (Value(snap.totals, k) < Value(Totals(ts.last), k) <==> gained < SumOver(blanked, ValueAt(ts.last, k)))
  {
    var taken, blanked := ReadingsOf(obs, Descendants(obs.children, root)), Blanked(obs, root, k);
    var gained, lost := SumOver(taken.Keys - blanked, Gain(ts.last, taken, k)), SumOver(blanked, ValueAt(ts.last, k));
    assert gained >= 0.0 && Total(ts'.last, k) == Total(ts.last, k) + gained - lost by {
      GainsShown(ts, obs, root, k);
      GainsAndLosses(ts.last, taken, k, blanked);
    }
    TotalsValue(ts.last, k);
    TotalsValue(ts'.last, k);
  }

  lemma GainsAndLosses(last: map<int, Reading>, taken: map<int, Reading>, k: Counter, lost: set<int>)
    requires lost <= taken.Keys
    requires forall p :: p in lost ==> Gain(last, taken, k)(p) == -ValueAt(last, k)(p)
    requires forall p :: p in taken.Keys - lost ==> Gain(last, taken, k)(p) >= 0.0
    ensures var gained := SumOver(taken.Keys - lost, Gain(last, taken, k));
            && gained >= 0.0
            && Total(last + taken, k) == Total(last, k) + gained - SumOver(lost, ValueAt(last, k))
  {
    TotalMovesByGains(last, taken, k);
    SumOverSplit(taken.Keys - lost, lost, Gain(last, taken, k));
    assert taken.Keys - lost + lost == taken.Keys;
    SumOverNegated(lost, Gain(last, taken, k), ValueAt(last, k));
    SumOverNonNegative(taken.Keys - lost, Gain(last, taken, k));
  }

  lemma GainsShown(ts: TrackerState, obs: Observation, root: int, k: Counter)
    requires Monotone(ts, obs, root, k)
    ensures var taken := ReadingsOf(obs, Descendants(obs.children, root));
            && Blanked(obs, root, k) <= taken.Keys
            && (forall p :: p in Blanked(obs, root, k) ==> Gain(ts.last, taken, k)(p) == -ValueAt(ts.last, k)(p))
            && (forall p :: p in taken.Keys - Blanked(obs, root, k) ==> Gain(ts.last, taken, k)(p) >= 0.0)
  {
    var taken := ReadingsOf(obs, Descendants(obs.children, root));
    forall p | p in taken
      ensures Gain(ts.last, taken, k)(p) ==
                (if Shown(obs, p, k).Some? then Shown(obs, p, k).value else 0.0) - ValueAt(ts.last, k)(p)
    {
      ReadingShown(obs, p, k);
      assert ValueAt(taken, k)(p) == Value(taken[p], k);
    }
  }

  lemma TotalOfOne(m: map<int, Reading>, k: Counter, x: int)
    requires m.Keys == {x}
    ensures Total(m, k) == Value(m[x], k)
  {
    SumOverAny({x}, ValueAt(m, k), x);
    assert {x} - {x} == {};
  }

  lemma AloneInTree(root: int)
    ensures Descendants(map[], root) == {root}
  {
    ReachesSelf(Next(map[]), root);
    forall p | p in Descendants(map[], root) ensures p == root {
      StaysInside(Next(map[]), root, p, {root});
    }
  }

  /** A lone process that is seen again while its io file cannot be read takes its bytes out of the
      total, whatever the kernel's counters do. */
  lemma BytesFallExample(ts: TrackerState, stat: (real, real), root: int)
    requires ts.last.Keys == {root}
    ensures var obs := Observation(map[], map[root := stat], map[], map[]);
            var after := Take(ts, obs, root).last;
            && Monotone(ts, obs, root, ReadBytes)
            && Total(ts.last, ReadBytes) == ts.last[root].readBytes && Total(after, ReadBytes) == 0.0
  {
    var obs := Observation(map[], map[root := stat], map[], map[]);
    AloneInTree(root);
    var taken := ReadingsOf(obs, {root});
    assert taken.Keys == {root} && ts.last + taken == taken;
    TotalOfOne(ts.last, ReadBytes, root);
    TotalOfOne(taken, ReadBytes, root);
  }
}

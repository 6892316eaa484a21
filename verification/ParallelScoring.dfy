/** The scoring loop as a transition system: iterations are shared out to workers by the OpenMP
    runtime, each worker runs its own share in order, and the workers interleave freely. An
    iteration reads only the input buffers, so it is two steps: compute the score, store it. */
module ParallelScoring {
  import opened PairwiseSum
  import opened ScoreBatch

  datatype Status<T> = Waiting | Computed(value: T) | Stored

  datatype State<T> = State(output: seq<T>, status: seq<Status<T>>)

  /** The loop to run: one row per iteration, and the worker that owns each iteration. */
  datatype Loop<!T> = Loop(ar: Arith<T>, rows: seq<seq<T>>, owner: seq<nat>) {
    ghost predicate Valid() { |owner| == |rows| }
  }

  ghost predicate Init<T(!new)>(loop: Loop<T>, output: seq<T>, s: State<T>) {
    s.output == output && |s.status| == |loop.rows|
    && forall p :: 0 <= p < |s.status| ==> s.status[p] == Waiting
  }

  /** Iteration p may start: its worker has finished every earlier iteration of its share. */
  ghost predicate MayStart<T(!new)>(loop: Loop<T>, s: State<T>, p: nat)
    requires loop.Valid() && |s.status| == |loop.rows| && p < |loop.rows|
  {
    s.status[p].Waiting? && forall q :: 0 <= q < p && loop.owner[q] == loop.owner[p] ==> s.status[q].Stored?
  }

  ghost predicate StepAt<T(!new)>(loop: Loop<T>, s: State<T>, s': State<T>, p: nat)
    requires loop.Valid()
  {
    && p < |loop.rows| == |s.status| <= |s.output|
    && (|| (MayStart(loop, s, p) && s' == s.(status := s.status[p := Computed(RowScore(loop.ar, loop.rows[p]))]))
        || (s.status[p].Computed? && s' == State(s.output[p := s.status[p].value], s.status[p := Stored])))
  }

  ghost predicate Next<T(!new)>(loop: Loop<T>, s: State<T>, s': State<T>)
    requires loop.Valid()
  {
    exists p: nat :: StepAt(loop, s, s', p)
  }

  ghost predicate IsRun<T(!new)>(loop: Loop<T>, output: seq<T>, run: seq<State<T>>)
    requires loop.Valid()
  {
    |run| > 0 && Init(loop, output, run[0])
    && forall i :: 0 <= i < |run| - 1 ==> Next(loop, run[i], run[i + 1])
  }

  ghost predicate Quiet<T(!new)>(loop: Loop<T>, s: State<T>)
    requires loop.Valid()
  {
    forall s' :: !Next(loop, s, s')
  }

  /** Every slot holds its final score or is as it was found; what is in flight is right. */
  ghost predicate Inv<T(!new)>(loop: Loop<T>, output: seq<T>, s: State<T>)
    requires loop.Valid()
  {
    && |s.status| == |loop.rows| <= |s.output| == |output|
    && (forall p :: |loop.rows| <= p < |output| ==> s.output[p] == output[p])
    && forall p :: 0 <= p < |loop.rows| ==>
         match s.status[p]
         case Waiting => s.output[p] == output[p]
         case Computed(v) => s.output[p] == output[p] && v == RowScore(loop.ar, loop.rows[p])
         case Stored => s.output[p] == RowScore(loop.ar, loop.rows[p])
  }

  lemma NextKeepsInv<T(!new)>(loop: Loop<T>, output: seq<T>, s: State<T>, s': State<T>)
    requires loop.Valid() && Inv(loop, output, s) && Next(loop, s, s')
    ensures Inv(loop, output, s')
  {
    var p: nat :| StepAt(loop, s, s', p);
  }

  function Progress<T>(status: seq<Status<T>>): nat {
    if status == [] then 0
    else
      var last := |status| - 1;
      Progress(status[..last]) + (match status[last] case Waiting => 0 case Computed(_) => 1 case Stored => 2)
  }

  lemma {:induction false} ProgressUpdate<T>(status: seq<Status<T>>, p: nat, v: T)
    requires p < |status|
    ensures status[p].Waiting? ==> Progress(status[p := Computed(v)]) == Progress(status) + 1
    ensures status[p].Computed? ==> Progress(status[p := Stored]) == Progress(status) + 1
  {
    var last := |status| - 1;
    if p < last {
      ProgressUpdate(status[..last], p, v);
      assert status[p := Computed(v)][..last] == status[..last][p := Computed(v)];
      assert status[p := Stored][..last] == status[..last][p := Stored];
    } else {
      assert status[p := Computed(v)][..last] == status[..last];
      assert status[p := Stored][..last] == status[..last];
    }
  }

  lemma {:induction false} ProgressExtremes<T>(status: seq<Status<T>>)
    ensures Progress(status) <= 2 * |status|
    ensures (forall p :: 0 <= p < |status| ==> status[p].Waiting?) ==> Progress(status) == 0
    ensures (forall p :: 0 <= p < |status| ==> status[p].Stored?) ==> Progress(status) == 2 * |status|
  {
    if status != [] {
      ProgressExtremes(status[..|status| - 1]);
    }
  }

  lemma {:induction false} RunInv<T(!new)>(loop: Loop<T>, output: seq<T>, run: seq<State<T>>)
    requires loop.Valid() && |loop.rows| <= |output| && IsRun(loop, output, run)
    ensures forall i :: 0 <= i < |run| ==> Inv(loop, output, run[i])
    ensures Progress(run[|run| - 1].status) == |run| - 1
  {
    var n := |run| - 1;
    if n == 0 {
      ProgressExtremes(run[0].status);
    } else {
      var shorter := run[..n];
      forall i | 0 <= i < n - 1 ensures Next(loop, shorter[i], shorter[i + 1]) {
        assert Next(loop, run[i], run[i + 1]);
      }
      RunInv(loop, output, shorter);
      assert Next(loop, run[n - 1], run[n - 1 + 1]);
      assert Inv(loop, output, shorter[n - 1]);
      NextKeepsInv(loop, output, run[n - 1], run[n]);
      var p: nat :| StepAt(loop, run[n - 1], run[n], p);
      ProgressUpdate(run[n - 1].status, p, RowScore(loop.ar, loop.rows[p]));
      forall i | 0 <= i < |run| ensures Inv(loop, output, run[i]) {
        if i < n {
          assert Inv(loop, output, shorter[i]);
        }
      }
    }
  }

  /** The least iteration not yet stored can always move: no assignment of iterations to workers
      blocks the loop. */
  lemma Unblocked<T(!new)>(loop: Loop<T>, s: State<T>, p: nat)
    requires loop.Valid() && p < |loop.rows| == |s.status| <= |s.output| && !s.status[p].Stored?
    requires forall q :: 0 <= q < p ==> s.status[q].Stored?
    ensures !Quiet(loop, s)
  {
    var s' := if s.status[p].Computed? then State(s.output[p := s.status[p].value], s.status[p := Stored])
              else s.(status := s.status[p := Computed(RowScore(loop.ar, loop.rows[p]))]);
    assert s.status[p].Waiting? ==> MayStart(loop, s, p);
    assert StepAt(loop, s, s', p);
    assert Next(loop, s, s');
  }

  lemma QuietMeansStored<T(!new)>(loop: Loop<T>, s: State<T>, p: nat)
    requires loop.Valid() && p <= |loop.rows| == |s.status| <= |s.output| && Quiet(loop, s)
    ensures forall q :: 0 <= q < p ==> s.status[q].Stored?
  {
    if p > 0 {
      QuietMeansStored(loop, s, p - 1);
      if !s.status[p - 1].Stored? {
        Unblocked(loop, s, p - 1);
      }
    }
  }

  /** However the iterations are shared out and interleaved: a run takes at most two steps per
      iteration, no step ever disturbs another iteration's slot, and a run that cannot go on has
      stored every score, taken exactly two steps per iteration and touched nothing else. */
  lemma EverySchedule<T(!new)>(loop: Loop<T>, output: seq<T>, run: seq<State<T>>)
    requires loop.Valid() && |loop.rows| <= |output| && IsRun(loop, output, run)
    ensures |run| - 1 <= 2 * |loop.rows|
    ensures forall i :: 0 <= i < |run| ==> Inv(loop, output, run[i])
    ensures Quiet(loop, run[|run| - 1]) <==> |run| - 1 == 2 * |loop.rows|
    ensures Quiet(loop, run[|run| - 1]) ==>
              run[|run| - 1].output == Scores(loop.ar, loop.rows) + output[|loop.rows|..]
  {
    var last := run[|run| - 1];
    RunInv(loop, output, run);
    ProgressExtremes(last.status);
    if Quiet(loop, last) {
      QuietMeansStored(loop, last, |loop.rows|);
    } else {
      var s' :| Next(loop, last, s');
      var p: nat :| StepAt(loop, last, s', p);
      ProgressUpdate(last.status, p, RowScore(loop.ar, loop.rows[p]));
      ProgressExtremes(s'.status);
    }
  }
}

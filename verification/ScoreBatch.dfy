/** The batch call of mdstats/_mvsel2_native.c: validation of the CSR rows, then one score per
    requested candidate, the iterations of the scoring loop spread over workers. */
module ScoreBatch {
  import opened Counting
  import opened PairwiseSum

  const PY_SSIZE_T_MAX: nat := 0x7FFF_FFFF_FFFF_FFFF

  datatype Error =
    | WorkersNotPositive | NoOpenMP | OffsetsTooShort | TermsEmpty | OutputTooShort | BatchTooLarge
    | CandidateOutOfRange | OffsetsInvalid

  datatype Outcome = Edges(count: uint64) | Rejected(error: Error)

  // ----- What a batch means

  predicate InRange(offsets: seq<uint64>, candidate: nat) { candidate + 1 < |offsets| }

  predicate GoodRow(offsets: seq<uint64>, witnessCount: nat, candidate: nat) {
    InRange(offsets, candidate) && offsets[candidate] <= offsets[candidate + 1] <= witnessCount
  }

  predicate AllGood(offsets: seq<uint64>, witnessCount: nat, candidates: seq<uint32>) {
    forall p :: 0 <= p < |candidates| ==> GoodRow(offsets, witnessCount, candidates[p])
  }

  /** Number of terms the batch reads, as an unbounded integer. */
  function TermsRead(offsets: seq<uint64>, witnessCount: nat, candidates: seq<uint32>): nat
    requires AllGood(offsets, witnessCount, candidates)
  {
    if candidates == [] then 0
    else
      var last := |candidates| - 1;
      assert GoodRow(offsets, witnessCount, candidates[last]);
      TermsRead(offsets, witnessCount, candidates[..last])
      + (offsets[candidates[last] + 1] - offsets[candidates[last]])
  }

  function Row<T>(offsets: seq<uint64>, witnesses: seq<uint32>, terms: seq<T>, candidate: nat): seq<T>
    requires GoodRow(offsets, |witnesses|, candidate)
    requires forall k :: 0 <= k < |witnesses| ==> witnesses[k] < |terms|
  {
    Gather(terms, witnesses[offsets[candidate]..offsets[candidate + 1]])
  }

  function Rows<T>(offsets: seq<uint64>, witnesses: seq<uint32>, terms: seq<T>, candidates: seq<uint32>)
    : (r: seq<seq<T>>)
    requires AllGood(offsets, |witnesses|, candidates)
    requires forall k :: 0 <= k < |witnesses| ==> witnesses[k] < |terms|
  {
    seq(|candidates|, p requires 0 <= p < |candidates| => Row(offsets, witnesses, terms, candidates[p]))
  }

  function Scores<T>(ar: Arith<T>, rows: seq<seq<T>>): (r: seq<T>)
    ensures |r| == |rows|
  {
    seq(|rows|, p requires 0 <= p < |rows| => RowScore(ar, rows[p]))
  }

  /** A requested row holds the terms of its candidate's witnesses, in order. */
  lemma RowsAre<T>(offsets: seq<uint64>, witnesses: seq<uint32>, terms: seq<T>, candidates: seq<uint32>)
    requires AllGood(offsets, |witnesses|, candidates)
    requires forall k :: 0 <= k < |witnesses| ==> witnesses[k] < |terms|
    ensures var rows := Rows(offsets, witnesses, terms, candidates);
            && |rows| == |candidates|
            && forall p :: 0 <= p < |rows| ==>
                 var begin, end := offsets[candidates[p]], offsets[candidates[p] + 1];
                 && |rows[p]| == end - begin
                 && forall k :: 0 <= k < |rows[p]| ==> rows[p][k] == terms[witnesses[begin + k]]
  {
    forall p | 0 <= p < |candidates| ensures GoodRow(offsets, |witnesses|, candidates[p]) {
    }
  }

  function TotalLength<T>(rows: seq<seq<T>>): nat {
    if rows == [] then 0 else |rows[0]| + TotalLength(rows[1..])
  }

  lemma {:induction false} TotalLengthAppend<T>(rows: seq<seq<T>>, row: seq<T>)
    ensures TotalLength(rows + [row]) == TotalLength(rows) + |row|
  {
    if rows != [] {
      assert (rows + [row])[1..] == rows[1..] + [row];
      TotalLengthAppend(rows[1..], row);
    } else {
      assert [row][1..] == [];
    }
  }

  /** The number of terms read is the length of all requested rows together. */
  lemma {:induction false} TermsReadIs<T>(offsets: seq<uint64>, witnesses: seq<uint32>, terms: seq<T>,
                                          candidates: seq<uint32>)
    requires AllGood(offsets, |witnesses|, candidates)
    requires forall k :: 0 <= k < |witnesses| ==> witnesses[k] < |terms|
    ensures TermsRead(offsets, |witnesses|, candidates) == TotalLength(Rows(offsets, witnesses, terms, candidates))
  {
    var rows := Rows(offsets, witnesses, terms, candidates);
    if candidates != [] {
      var last := |candidates| - 1;
      TermsReadIs(offsets, witnesses, terms, candidates[..last]);
      assert GoodRow(offsets, |witnesses|, candidates[last]);
      assert rows == Rows(offsets, witnesses, terms, candidates[..last]) + [rows[last]];
      TotalLengthAppend(rows[..last], rows[last]);
    }
  }

  /** The checks made before the rows are looked at, and the first of them to fail. */
  predicate FailsEarly(error: Error, openmp: bool, workers: int, offsets: nat, terms: nat, requested: nat,
                       output: nat)
  {
    match error
    case WorkersNotPositive => workers < 1
    case NoOpenMP => workers > 1 && !openmp
    case OffsetsTooShort => offsets < 2
    case TermsEmpty => terms == 0
    case OutputTooShort => requested > output
    case BatchTooLarge => requested > PY_SSIZE_T_MAX
    case _ => false
  }

  function Rank(error: Error): nat {
    match error
    case WorkersNotPositive => 0
    case NoOpenMP => 1
    case OffsetsTooShort => 2
    case TermsEmpty => 3
    case OutputTooShort => 4
    case BatchTooLarge => 5
    case _ => 6
  }

  predicate EarlyChecksPass(openmp: bool, workers: int, offsets: nat, terms: nat, requested: nat, output: nat) {
    && workers >= 1 && (openmp || workers == 1)
    && offsets >= 2 && terms > 0
    && requested <= output && requested <= PY_SSIZE_T_MAX
  }

  /** `error` reports the first candidate whose row is unusable. */
  ghost predicate FirstBadRow(error: Error, offsets: seq<uint64>, witnessCount: nat, candidates: seq<uint32>) {
    exists p :: 0 <= p < |candidates| && AllGood(offsets, witnessCount, candidates[..p])
             && !GoodRow(offsets, witnessCount, candidates[p])
             && error == if InRange(offsets, candidates[p]) then OffsetsInvalid else CandidateOutOfRange
  }

  // ----- The C function

  /** The validation loop. */
  method Validate(offsets: array<uint64>, witnessCount: nat, candidates: array<uint32>) returns (r: Outcome)
    ensures r.Edges? <==> AllGood(offsets[..], witnessCount, candidates[..])
    ensures r.Edges? ==> r.count == TermsRead(offsets[..], witnessCount, candidates[..]) % 0x1_0000_0000_0000_0000
    ensures r.Rejected? ==> FirstBadRow(r.error, offsets[..], witnessCount, candidates[..])
  {
    var candidateCount := if offsets.Length > 0 then offsets.Length - 1 else 0;
    var edges: uint64 := 0;
    for position := 0 to candidates.Length
      invariant AllGood(offsets[..], witnessCount, candidates[..position])
      invariant edges == TermsRead(offsets[..], witnessCount, candidates[..position]) % 0x1_0000_0000_0000_0000
    {
      var candidate := candidates[position];
      assert candidates[..position + 1][..position] == candidates[..position];
      if candidate >= candidateCount {
        assert !GoodRow(offsets[..], witnessCount, candidates[..][position]);
        assert candidates[..][..position] == candidates[..position];
        return Rejected(CandidateOutOfRange);
      }
      var start, stop := offsets[candidate], offsets[candidate + 1];
      if start > stop || stop > witnessCount {
        assert !GoodRow(offsets[..], witnessCount, candidates[..][position]);
        assert candidates[..][..position] == candidates[..position];
        return Rejected(OffsetsInvalid);
      }
      edges := (edges + (stop - start)) % 0x1_0000_0000_0000_0000;
    }
    assert candidates[..candidates.Length] == candidates[..];
    return Edges(edges);
  }

  /** The body of the scoring loop. */
  method ScoreOne<T>(ar: Arith<T>, offsets: array<uint64>, witnesses: array<uint32>, terms: array<T>,
                     candidates: array<uint32>, p: nat)
    returns (score: T)
    requires forall k :: 0 <= k < witnesses.Length ==> witnesses[k] < terms.Length
    requires p < candidates.Length && AllGood(offsets[..], witnesses.Length, candidates[..])
    ensures score == Scores(ar, Rows(offsets[..], witnesses[..], terms[..], candidates[..]))[p]
  {
    assert GoodRow(offsets[..], witnesses.Length, candidates[..][p]);
    var candidate := candidates[p];
    var start, stop := offsets[candidate], offsets[candidate + 1];
    score := PairwiseSumGather(ar, witnesses, terms, start, stop - start);
    assert witnesses[..][start..stop] == witnesses[start..start + (stop - start)];
  }

  /** The slots of the iterations that are no longer pending hold their scores, the others are as found. */
  ghost predicate Stored<T>(scores: seq<T>, start: seq<T>, pending: set<int>, output: seq<T>) {
    && |output| == |start| >= |scores|
    && (forall p :: 0 <= p < |scores| && p !in pending ==> output[p] == scores[p])
    && (forall p :: |scores| <= p < |start| ==> output[p] == start[p])
  }

  lemma StoreOne<T>(scores: seq<T>, start: seq<T>, pending: set<int>, output: seq<T>, p: nat)
    requires Stored(scores, start, pending, output) && p < |scores|
    ensures Stored(scores, start, pending - {p}, output[p := scores[p]])
  {
  }

  lemma AllStored<T>(scores: seq<T>, start: seq<T>, output: seq<T>)
    requires Stored(scores, start, {}, output)
    ensures output == scores + start[|scores|..]
  {
  }

  /** The scoring loop. Which pending iteration runs next is left open. */
  method ScoreRows<T>(ar: Arith<T>, offsets: array<uint64>, witnesses: array<uint32>, terms: array<T>,
                      candidates: array<uint32>, output: array<T>)
    requires output != terms && (output as object) !in {offsets as object, witnesses, candidates}
    requires forall k :: 0 <= k < witnesses.Length ==> witnesses[k] < terms.Length
    requires candidates.Length <= output.Length && AllGood(offsets[..], witnesses.Length, candidates[..])
    modifies output
    ensures output[..] == Scores(ar, Rows(offsets[..], witnesses[..], terms[..], candidates[..]))
                        + old(output[..])[candidates.Length..]
  {
    ghost var start, scores := output[..], Scores(ar, Rows(offsets[..], witnesses[..], terms[..], candidates[..]));
    var pending := UpTo(candidates.Length);
    while pending != {}
      invariant pending <= UpTo(candidates.Length) && Stored(scores, start, pending, output[..])
    {
      var p :| p in pending;
      var score := ScoreOne(ar, offsets, witnesses, terms, candidates, p);
      StoreOne(scores, start, pending, output[..], p);
      output[p] := score;
      pending := pending - {p};
    }
    AllStored(scores, start, output[..]);
  }

  /** mvsel2_score_family_batch. In a call that gets as far as scoring, the witness indices are taken
      to be below the number of terms, as the comment at the top of the C file says; the output buffer
      is a buffer of its own. */
  method ScoreFamilyBatch<T>(ar: Arith<T>, openmp: bool, offsets: array<uint64>, witnesses: array<uint32>,
                             terms: array<T>, candidates: array<uint32>, output: array<T>, workers: int)
    returns (r: Outcome)
    requires output != terms && (output as object) !in {offsets as object, witnesses, candidates}
    requires EarlyChecksPass(openmp, workers, offsets.Length, terms.Length, candidates.Length, output.Length)
             && AllGood(offsets[..], witnesses.Length, candidates[..])
             ==> forall k :: 0 <= k < witnesses.Length ==> witnesses[k] < terms.Length
    modifies output
    ensures r.Edges? <==>
              EarlyChecksPass(openmp, workers, offsets.Length, terms.Length, candidates.Length, output.Length)
              && AllGood(offsets[..], witnesses.Length, candidates[..])
    ensures r.Edges? ==>
              r.count == TermsRead(offsets[..], witnesses.Length, candidates[..]) % 0x1_0000_0000_0000_0000
              && output[..] == Scores(ar, Rows(offsets[..], witnesses[..], terms[..], candidates[..]))
                             + old(output[..])[candidates.Length..]
    ensures r.Rejected? ==> output[..] == old(output[..])
    ensures r.Rejected? && Rank(r.error) < 6 ==>
              FailsEarly(r.error, openmp, workers, offsets.Length, terms.Length, candidates.Length, output.Length)
              && forall e :: Rank(e) < Rank(r.error) ==>
                   !FailsEarly(e, openmp, workers, offsets.Length, terms.Length, candidates.Length, output.Length)
    ensures r.Rejected? && Rank(r.error) == 6 ==>
              EarlyChecksPass(openmp, workers, offsets.Length, terms.Length, candidates.Length, output.Length)
              && FirstBadRow(r.error, offsets[..], witnesses.Length, candidates[..])
  {
    if workers < 1 { return Rejected(WorkersNotPositive); }
    if !openmp && workers > 1 { return Rejected(NoOpenMP); }
    if offsets.Length < 2 { return Rejected(OffsetsTooShort); }
    if terms.Length == 0 { return Rejected(TermsEmpty); }
    if candidates.Length > output.Length { return Rejected(OutputTooShort); }
    if candidates.Length > PY_SSIZE_T_MAX { return Rejected(BatchTooLarge); }
    r := Validate(offsets, witnesses.Length, candidates);
    if r.Edges? {
      ScoreRows(ar, offsets, witnesses, terms, candidates, output);
    }
  }
}

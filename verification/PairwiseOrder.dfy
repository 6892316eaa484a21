/** The order in which mdstats/_mvsel2_native.c adds the terms of a row, said of the score itself. With
    SplitScore for long rows these equations determine every score under every addition. */
module PairwiseOrder {
  import opened PairwiseSum

  lemma EmptyRow<T>(ar: Arith<T>)
    ensures RowScore(ar, []) == ar.zero
  {
  }

  lemma SingleTerm<T>(ar: Arith<T>, x: T)
    ensures RowScore(ar, [x]) == ar.add(ar.negZero, x)
  {
    TreeOfWithin(0, 1);
    assert TreeOf(0, 1) == Add(Chain(NegZero, 0, 0), Leaf(0));
    EvalLast(ar, [x], Chain(NegZero, 0, 0), 0);
  }

  /** In a short row, and behind the eight lanes of a block, the terms are added one at a time, the
      last one last. */
  lemma LastAdded<T>(ar: Arith<T>, row: seq<T>)
    requires 1 < |row| < 8 || (8 < |row| <= 128 && |row| % 8 != 0)
    ensures RowScore(ar, row) == ar.add(RowScore(ar, row[..|row| - 1]), row[|row| - 1])
  {
    var n := |row|;
    TreeOfWithin(0, n);
    TailTree(n);
    PartScore(ar, row, 0, n - 1);
    EvalLast(ar, row, TreeOf(0, n - 1), n - 1);
    assert row[0..0 + (n - 1)] == row[..n - 1];
  }

  lemma EvalLast<T>(ar: Arith<T>, row: seq<T>, t: Tree, k: nat)
    requires Within(t, |row|) && k < |row|
    ensures Eval(ar, Add(t, Leaf(k)), row) == ar.add(Eval(ar, t, row), row[k])
  {
  }

  lemma TailTree(n: nat)
    requires 1 < n < 8 || (8 < n <= 128 && n % 8 != 0)
    ensures TreeOf(0, n) == Add(TreeOf(0, n - 1), Leaf(n - 1))
  {
    assert n > 8 ==> (n - 1) / 8 == n / 8;
  }

  // ----- The eight lanes

  /** Every eighth term, from the j-th on. */
  function Column<T>(row: seq<T>, j: nat): (r: seq<T>)
    requires j < 8 && |row| % 8 == 0
    ensures |r| == |row| / 8 && forall i :: 0 <= i < |r| ==> r[i] == row[8 * i + j]
  {
    seq(|row| / 8, i requires 0 <= i < |row| / 8 => row[8 * i + j])
  }

  /** The terms from left to right. */
  function Fold<T>(ar: Arith<T>, terms: seq<T>): T
    requires terms != []
  {
    if |terms| == 1 then terms[0] else ar.add(Fold(ar, terms[..|terms| - 1]), terms[|terms| - 1])
  }

  lemma {:induction false} LaneFold<T>(ar: Arith<T>, row: seq<T>, j: nat, m: nat)
    requires j < 8 && |row| % 8 == 0 && 1 <= m <= |row| / 8
    ensures Within(Lane(j, m), |row|) && Eval(ar, Lane(j, m), row) == Fold(ar, Column(row, j)[..m])
  {
    var column := Column(row, j);
    if m > 1 {
      LaneFold(ar, row, j, m - 1);
      assert column[..m][..m - 1] == column[..m - 1];
      assert column[..m][m - 1] == row[j + 8 * (m - 1)];
    }
  }

  /** A block of whole rounds is summed in eight lanes, combined in pairs, pairs of pairs, and halves. */
  lemma BlockOfLanes<T>(ar: Arith<T>, row: seq<T>)
    requires 8 <= |row| <= 128 && |row| % 8 == 0
    ensures RowScore(ar, row) ==
              ar.add(ar.add(ar.add(Fold(ar, Column(row, 0)), Fold(ar, Column(row, 1))),
                            ar.add(Fold(ar, Column(row, 2)), Fold(ar, Column(row, 3)))),
                     ar.add(ar.add(Fold(ar, Column(row, 4)), Fold(ar, Column(row, 5))),
                            ar.add(Fold(ar, Column(row, 6)), Fold(ar, Column(row, 7)))))
  {
    var m := |row| / 8;
    var r := seq(8, j requires 0 <= j < 8 => Fold(ar, Column(row, j)));
    assert LanesHold(ar, row, m, r) by {
      forall j | 0 <= j < 8 ensures LaneHolds(ar, row, j, m, r[j]) {
        LaneFold(ar, row, j, m);
        assert Column(row, j)[..m] == Column(row, j);
      }
    }
    LanesEval(ar, row, m, r);
    TreeOfWithin(0, |row|);
    assert TreeOf(0, |row|) == Lanes(0, m);
  }
}

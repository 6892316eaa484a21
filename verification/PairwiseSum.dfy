/** The gathered pairwise summation of mdstats/_mvsel2_native.c, and the tree of additions it performs. */
module PairwiseSum {

  type uint32 = x: nat | x < 0x1_0000_0000
  type uint64 = x: nat | x < 0x1_0000_0000_0000_0000

  const BLOCK_SIZE: nat := 128

  /** The arithmetic the sum is carried out in. Nothing is assumed about `add`: not associativity,
      not commutativity, not that the zeros are neutral. */
  datatype Arith<!T> = Arith(zero: T, negZero: T, add: (T, T) -> T)

  /** An expression over the positions of a row; `Add` nodes are the additions performed. */
  datatype Tree = Zero | NegZero | Leaf(pos: nat) | Add(left: Tree, right: Tree)

  predicate Within(t: Tree, n: nat) {
    match t
    case Leaf(p) => p < n
    case Add(l, r) => Within(l, n) && Within(r, n)
    case _ => true
  }

  function Eval<T>(ar: Arith<T>, t: Tree, row: seq<T>): T
    requires Within(t, |row|)
  {
    match t
    case Zero => ar.zero
    case NegZero => ar.negZero
    case Leaf(p) => row[p]
    case Add(l, r) => ar.add(Eval(ar, l, row), Eval(ar, r, row))
  }

  // ----- The tree the code builds

  /** `acc` with the positions lo..hi added on the right, one at a time. */
  function Chain(acc: Tree, lo: nat, hi: nat): Tree
    decreases hi
  {
    if hi <= lo then acc else Add(Chain(acc, lo, hi - 1), Leaf(hi - 1))
  }

  /** One of the eight accumulators after `m` rounds: positions first, first + 8, first + 16, ... */
  function Lane(first: nat, m: nat): Tree {
    if m <= 1 then Leaf(first) else Add(Lane(first, m - 1), Leaf(first + 8 * (m - 1)))
  }

  function FourLanes(first: nat, m: nat): Tree {
    Add(Add(Lane(first, m), Lane(first + 1, m)), Add(Lane(first + 2, m), Lane(first + 3, m)))
  }

  function Lanes(off: nat, m: nat): Tree {
    Add(FourLanes(off, m), FourLanes(off + 4, m))
  }

  function Split(n: nat): (n2: nat)
    ensures n > BLOCK_SIZE ==> 64 <= n2 < n && n2 % 8 == 0
    ensures n > BLOCK_SIZE ==> 2 * n2 <= n && 2 * (n - n2) <= n + 15
  {
    n / 2 - (n / 2) % 8
  }

  /** The tree for the row positions off..off+n. */
  function TreeOf(off: nat, n: nat): Tree
    decreases n
  {
    if n == 0 then Zero
    else if n < 8 then Chain(NegZero, off, off + n)
    else if n <= BLOCK_SIZE then Chain(Lanes(off, n / 8), off + n / 8 * 8, off + n)
    else Add(TreeOf(off, Split(n)), TreeOf(off + Split(n), n - Split(n)))
  }

  // ----- Every position is read exactly once

  /** How many times the tree reads position `p`. */
  function Reads(t: Tree, p: nat): nat {
    match t
    case Leaf(q) => if p == q then 1 else 0
    case Add(l, r) => Reads(l, p) + Reads(r, p)
    case _ => 0
  }

  lemma {:induction false} ChainReads(acc: Tree, lo: nat, hi: nat, p: nat)
    ensures Reads(Chain(acc, lo, hi), p) == Reads(acc, p) + if lo <= p < hi then 1 else 0
    decreases hi
  {
    if lo < hi {
      ChainReads(acc, lo, hi - 1, p);
    }
  }

  lemma {:induction false} LaneReads(off: nat, j: nat, m: nat, p: nat)
    requires m >= 1 && j < 8
    ensures Reads(Lane(off + j, m), p) == if off <= p < off + 8 * m && (p - off) % 8 == j then 1 else 0
  {
    if m > 1 {
      LaneReads(off, j, m - 1, p);
    }
  }

  lemma FourLanesReads(off: nat, j: nat, m: nat, p: nat)
    requires m >= 1 && j <= 4
    ensures Reads(FourLanes(off + j, m), p)
         == if off <= p < off + 8 * m && j <= (p - off) % 8 < j + 4 then 1 else 0
  {
    LaneReads(off, j, m, p); LaneReads(off, j + 1, m, p); LaneReads(off, j + 2, m, p); LaneReads(off, j + 3, m, p);
  }

  lemma LanesReads(off: nat, m: nat, p: nat)
    requires m >= 1
    ensures Reads(Lanes(off, m), p) == if off <= p < off + 8 * m then 1 else 0
  {
    FourLanesReads(off, 0, m, p);
    FourLanesReads(off, 4, m, p);
  }

  /** Across the eight accumulators, the tail and the two halves, each position of the row is
      added exactly once and nothing else is. */
  lemma {:induction false} EachPositionOnce(off: nat, n: nat, p: nat)
    ensures Reads(TreeOf(off, n), p) == if off <= p < off + n then 1 else 0
    decreases n
  {
    if n == 0 {
    } else if n < 8 {
      ChainReads(NegZero, off, off + n, p);
    } else if n <= BLOCK_SIZE {
      LanesReads(off, n / 8, p);
      ChainReads(Lanes(off, n / 8), off + n / 8 * 8, off + n, p);
    } else {
      EachPositionOnce(off, Split(n), p);
      EachPositionOnce(off + Split(n), n - Split(n), p);
    }
  }

  lemma {:induction false} WithinFromReads(t: Tree, n: nat)
    requires forall p: nat :: p >= n ==> Reads(t, p) == 0
    ensures Within(t, n)
  {
    match t
    case Leaf(q) =>
      assert Reads(t, q) == 1;
    case Add(l, r) =>
      forall p: nat | p >= n ensures Reads(l, p) == 0 && Reads(r, p) == 0 {
        assert Reads(t, p) == 0;
      }
      WithinFromReads(l, n);
      WithinFromReads(r, n);
    case _ =>
  }

  lemma TreeOfWithin(off: nat, n: nat)
    ensures Within(TreeOf(off, n), off + n)
  {
    forall p: nat | p >= off + n ensures Reads(TreeOf(off, n), p) == 0 {
      EachPositionOnce(off, n, p);
    }
    WithinFromReads(TreeOf(off, n), off + n);
  }

  // ----- The score of a row

  function RowScore<T>(ar: Arith<T>, row: seq<T>): T {
    TreeOfWithin(0, |row|);
    Eval(ar, TreeOf(0, |row|), row)
  }

  /** The materialised row terms[witnesses]. */
  function Gather<T>(terms: seq<T>, witnesses: seq<nat>): (row: seq<T>)
    requires forall k :: 0 <= k < |witnesses| ==> witnesses[k] < |terms|
    ensures |row| == |witnesses| && forall k :: 0 <= k < |row| ==> row[k] == terms[witnesses[k]]
  {
    seq(|witnesses|, k requires 0 <= k < |witnesses| => terms[witnesses[k]])
  }

  /** `u` is `t` with every position moved up by d. */
  predicate Moved(t: Tree, d: nat, u: Tree) {
    match t
    case Leaf(p) => u == Leaf(p + d)
    case Add(l, r) => u.Add? && Moved(l, d, u.left) && Moved(r, d, u.right)
    case _ => u == t
  }

  lemma {:induction false} MovedEval<T>(ar: Arith<T>, t: Tree, d: nat, u: Tree, x: seq<T>, y: seq<T>)
    requires Moved(t, d, u) && Within(t, |x|)
    requires |x| + d <= |y| && forall k :: 0 <= k < |x| ==> x[k] == y[k + d]
    ensures Within(u, |y|) && Eval(ar, t, x) == Eval(ar, u, y)
  {
    if t.Add? {
      MovedEval(ar, t.left, d, u.left, x, y);
      MovedEval(ar, t.right, d, u.right, x, y);
    }
  }

  lemma {:induction false} MovedChain(acc: Tree, d: nat, acc': Tree, lo: nat, hi: nat)
    requires Moved(acc, d, acc')
    ensures Moved(Chain(acc, lo, hi), d, Chain(acc', lo + d, hi + d))
    decreases hi
  {
    if lo < hi {
      MovedChain(acc, d, acc', lo, hi - 1);
    }
  }

  lemma {:induction false} MovedLane(first: nat, d: nat, m: nat)
    ensures Moved(Lane(first, m), d, Lane(first + d, m))
  {
    if m > 1 {
      MovedLane(first, d, m - 1);
    }
  }

  lemma MovedFourLanes(first: nat, d: nat, m: nat)
    ensures Moved(FourLanes(first, m), d, FourLanes(first + d, m))
  {
    MovedLane(first, d, m); MovedLane(first + 1, d, m); MovedLane(first + 2, d, m); MovedLane(first + 3, d, m);
  }

  lemma MovedLanes(off: nat, d: nat, m: nat)
    ensures Moved(Lanes(off, m), d, Lanes(off + d, m))
  {
    MovedFourLanes(off, d, m);
    MovedFourLanes(off + 4, d, m);
  }

  lemma {:induction false} MovedTree(off: nat, d: nat, n: nat)
    ensures Moved(TreeOf(off, n), d, TreeOf(off + d, n))
    decreases n
  {
    if n == 0 {
    } else if n < 8 {
      MovedChain(NegZero, d, NegZero, off, off + n);
    } else if n <= BLOCK_SIZE {
      MovedLanes(off, d, n / 8);
      MovedChain(Lanes(off, n / 8), d, Lanes(off + d, n / 8), off + n / 8 * 8, off + n);
    } else {
      MovedTree(off, d, Split(n));
      MovedTree(off + Split(n), d, n - Split(n));
    }
  }

  /** A part of a row scores the same where it stands as cut out: the pointer passed to the
      recursive call may be advanced. */
  lemma PartScore<T>(ar: Arith<T>, row: seq<T>, off: nat, n: nat)
    requires off + n <= |row|
    ensures Within(TreeOf(off, n), |row|)
    ensures Eval(ar, TreeOf(off, n), row) == RowScore(ar, row[off..off + n])
  {
    TreeOfWithin(0, n);
    MovedTree(0, off, n);
    MovedEval(ar, TreeOf(0, n), off, TreeOf(off, n), row[off..off + n], row);
  }

  lemma SplitScore<T>(ar: Arith<T>, row: seq<T>, n2: nat)
    requires |row| > BLOCK_SIZE && n2 == Split(|row|)
    ensures RowScore(ar, row) == ar.add(RowScore(ar, row[..n2]), RowScore(ar, row[n2..]))
  {
    var n := |row|;
    TreeOfWithin(0, n);
    PartScore(ar, row, 0, n2);
    PartScore(ar, row, n2, n - n2);
    assert row[0..0 + n2] == row[..n2] && row[n2..n2 + (n - n2)] == row[n2..];
  }

  // ----- The C function

  ghost predicate LaneHolds<T>(ar: Arith<T>, row: seq<T>, j: nat, m: nat, v: T) {
    Within(Lane(j, m), |row|) && v == Eval(ar, Lane(j, m), row)
  }

  /** The eight accumulators after `m` rounds. */
  ghost predicate LanesHold<T>(ar: Arith<T>, row: seq<T>, m: nat, r: seq<T>) {
    |r| == 8 && forall j :: 0 <= j < 8 ==> LaneHolds(ar, row, j, m, r[j])
  }

  lemma FourLanesEval<T>(ar: Arith<T>, row: seq<T>, m: nat, r: seq<T>, j: nat)
    requires j <= 4 && LanesHold(ar, row, m, r)
    ensures Within(FourLanes(j, m), |row|)
    ensures Eval(ar, FourLanes(j, m), row) == ar.add(ar.add(r[j], r[j + 1]), ar.add(r[j + 2], r[j + 3]))
  {
    assert LaneHolds(ar, row, j, m, r[j]) && LaneHolds(ar, row, j + 1, m, r[j + 1]);
    assert LaneHolds(ar, row, j + 2, m, r[j + 2]) && LaneHolds(ar, row, j + 3, m, r[j + 3]);
  }

  lemma LanesEval<T>(ar: Arith<T>, row: seq<T>, m: nat, r: seq<T>)
    requires LanesHold(ar, row, m, r)
    ensures Within(Lanes(0, m), |row|)
    ensures Eval(ar, Lanes(0, m), row)
         == ar.add(ar.add(ar.add(r[0], r[1]), ar.add(r[2], r[3])), ar.add(ar.add(r[4], r[5]), ar.add(r[6], r[7])))
  {
    FourLanesEval(ar, row, m, r, 0);
    FourLanesEval(ar, row, m, r, 4);
  }

  lemma LanesRound<T>(ar: Arith<T>, row: seq<T>, m: nat, r: seq<T>, r': seq<T>)
    requires m >= 1 && 8 * m + 8 <= |row| && LanesHold(ar, row, m, r) && |r'| == 8
    requires forall j :: 0 <= j < 8 ==> r'[j] == ar.add(r[j], row[8 * m + j])
    ensures LanesHold(ar, row, m + 1, r')
  {
    forall j | 0 <= j < 8 ensures LaneHolds(ar, row, j, m + 1, r'[j]) {
      assert LaneHolds(ar, row, j, m, r[j]);
      assert Lane(j, m + 1) == Add(Lane(j, m), Leaf(j + 8 * m));
    }
  }

  /** One round of the accumulator loop: lane j takes the gathered term at `base + j`. */
  method AddRound<T>(ar: Arith<T>, witnesses: array<uint32>, terms: array<T>, base: nat, r: array<T>)
    requires r.Length == 8 && base + 8 <= witnesses.Length && r != terms && r as object != witnesses
    requires forall k :: 0 <= k < witnesses.Length ==> witnesses[k] < terms.Length
    modifies r
    ensures forall j :: 0 <= j < 8 ==> r[j] == ar.add(old(r[j]), terms[witnesses[base + j]])
  {
    r[0] := ar.add(r[0], terms[witnesses[base]]);
    r[1] := ar.add(r[1], terms[witnesses[base + 1]]);
    r[2] := ar.add(r[2], terms[witnesses[base + 2]]);
    r[3] := ar.add(r[3], terms[witnesses[base + 3]]);
    r[4] := ar.add(r[4], terms[witnesses[base + 4]]);
    r[5] := ar.add(r[5], terms[witnesses[base + 5]]);
    r[6] := ar.add(r[6], terms[witnesses[base + 6]]);
    r[7] := ar.add(r[7], terms[witnesses[base + 7]]);
  }

  /** The accumulators take the first eight gathered terms. */
  method LoadLanes<T>(ar: Arith<T>, witnesses: array<uint32>, terms: array<T>, start: nat) returns (r: array<T>)
    requires start + 8 <= witnesses.Length
    requires forall k :: 0 <= k < witnesses.Length ==> witnesses[k] < terms.Length
    ensures fresh(r) && r.Length == 8
    ensures forall j :: 0 <= j < 8 ==> r[j] == terms[witnesses[start + j]]
  {
    r := new T[8](_ => ar.zero);
    r[0] := terms[witnesses[start]];
    r[1] := terms[witnesses[start + 1]];
    r[2] := terms[witnesses[start + 2]];
    r[3] := terms[witnesses[start + 3]];
    r[4] := terms[witnesses[start + 4]];
    r[5] := terms[witnesses[start + 5]];
    r[6] := terms[witnesses[start + 6]];
    r[7] := terms[witnesses[start + 7]];
  }

  /** The accumulator part of the block branch: the eight lanes over the first n - n % 8 terms. */
  method FillLanes<T>(ar: Arith<T>, witnesses: array<uint32>, terms: array<T>, start: nat, n: nat, ghost row: seq<T>)
    returns (r: array<T>)
    requires 8 <= n == |row| && start + n <= witnesses.Length
    requires forall k :: 0 <= k < witnesses.Length ==> witnesses[k] < terms.Length
    requires forall k :: 0 <= k < n ==> row[k] == terms[witnesses[start + k]]
    ensures fresh(r) && LanesHold(ar, row, n / 8, r[..])
  {
    r := LoadLanes(ar, witnesses, terms, start);
    assert LanesHold(ar, row, 1, r[..]);
    var i := 8;
    ghost var m := 1;
    while i < n - n % 8
      invariant i == 8 * m && 1 <= m <= n / 8
      invariant LanesHold(ar, row, m, r[..])
    {
      ghost var before := r[..];
      AddRound(ar, witnesses, terms, start + i, r);
      LanesRound(ar, row, m, before, r[..]);
      i, m := i + 8, m + 1;
    }
  }

  /** The eight-accumulator branch of mvsel2_pairwise_sum_gather. */
  method BlockSum<T>(ar: Arith<T>, witnesses: array<uint32>, terms: array<T>, start: nat, n: nat)
    returns (res: T)
    requires 8 <= n <= BLOCK_SIZE && start + n <= witnesses.Length
    requires forall k :: 0 <= k < witnesses.Length ==> witnesses[k] < terms.Length
    ensures res == RowScore(ar, Gather(terms[..], witnesses[start..start + n]))
  {
    ghost var row := Gather(terms[..], witnesses[start..start + n]);
    var r := FillLanes(ar, witnesses, terms, start, n, row);
    LanesEval(ar, row, n / 8, r[..]);
    res := ar.add(ar.add(ar.add(r[0], r[1]), ar.add(r[2], r[3])),
                  ar.add(ar.add(r[4], r[5]), ar.add(r[6], r[7])));
    ghost var lanes := Lanes(0, n / 8);
    for i := n / 8 * 8 to n
      invariant Within(Chain(lanes, n / 8 * 8, i), n) && res == Eval(ar, Chain(lanes, n / 8 * 8, i), row)
    {
      res := ar.add(res, terms[witnesses[start + i]]);
    }
    TreeOfWithin(0, n);
  }

  /** The branch of mvsel2_pairwise_sum_gather for fewer than eight terms. */
  method ShortSum<T>(ar: Arith<T>, witnesses: array<uint32>, terms: array<T>, start: nat, n: nat)
    returns (res: T)
    requires 0 < n < 8 && start + n <= witnesses.Length
    requires forall k :: 0 <= k < witnesses.Length ==> witnesses[k] < terms.Length
    ensures res == RowScore(ar, Gather(terms[..], witnesses[start..start + n]))
  {
    ghost var row := Gather(terms[..], witnesses[start..start + n]);
    res := ar.negZero;
    for i := 0 to n
      invariant Within(Chain(NegZero, 0, i), n) && res == Eval(ar, Chain(NegZero, 0, i), row)
    {
      res := ar.add(res, terms[witnesses[start + i]]);
    }
    TreeOfWithin(0, n);
  }

  lemma GatherParts<T>(terms: seq<T>, witnesses: seq<nat>, start: nat, n: nat, n2: nat)
    requires forall k :: 0 <= k < |witnesses| ==> witnesses[k] < |terms|
    requires n2 <= n && start + n <= |witnesses|
    ensures var row := Gather(terms, witnesses[start..start + n]);
            && row[..n2] == Gather(terms, witnesses[start..start + n2])
            && row[n2..] == Gather(terms, witnesses[start + n2..start + n])
  {
  }

  /** mvsel2_pairwise_sum_gather: `witnesses + start` is the row pointer, `n` the row length.
      The result is the score of the materialised row, whatever the arithmetic. */
  method PairwiseSumGather<T>(ar: Arith<T>, witnesses: array<uint32>, terms: array<T>, start: nat, n: nat)
    returns (s: T)
    requires start + n <= witnesses.Length
    requires forall k :: 0 <= k < witnesses.Length ==> witnesses[k] < terms.Length
    ensures s == RowScore(ar, Gather(terms[..], witnesses[start..start + n]))
    decreases n
  {
    if n == 0 {
      return ar.zero;
    }
    if n < 8 {
      s := ShortSum(ar, witnesses, terms, start, n);
      return;
    }
    if n <= BLOCK_SIZE {
      s := BlockSum(ar, witnesses, terms, start, n);
      return;
    }
    var n2 := n / 2;
    n2 := n2 - n2 % 8;
    var left := PairwiseSumGather(ar, witnesses, terms, start, n2);
    var right := PairwiseSumGather(ar, witnesses, terms, start + n2, n - n2);
    GatherParts(terms[..], witnesses[..], start, n, n2);
    SplitScore(ar, Gather(terms[..], witnesses[..][start..start + n]), n2);
    assert witnesses[..][start..start + n] == witnesses[start..start + n];
    assert witnesses[..][start..start + n2] == witnesses[start..start + n2];
    assert witnesses[..][start + n2..start + n] == witnesses[start + n2..start + n2 + (n - n2)];
    s := ar.add(left, right);
  }
}

/** What the tree of additions computes over the reals: exactly, and with rounded additions. */
module PairwiseRounding {
  import opened Bits
  import Counting
  import Grid
  import opened PairwiseSum

  function Exact(): Arith<real> { Arith(0.0, 0.0, (a: real, b: real) => a + b) }

  /** Sum of row[lo..hi]. */
  function Sum(row: seq<real>, lo: nat, hi: nat): real
    requires hi <= |row|
    decreases hi
  {
    if hi <= lo then 0.0 else Sum(row, lo, hi - 1) + row[hi - 1]
  }

  lemma {:induction false} SumSplit(row: seq<real>, lo: nat, mid: nat, hi: nat)
    requires lo <= mid <= hi <= |row|
    ensures Sum(row, lo, hi) == Sum(row, lo, mid) + Sum(row, mid, hi)
    decreases hi
  {
    if mid < hi {
      SumSplit(row, lo, mid, hi - 1);
    }
  }

  // ----- Exact evaluation is the plain sum

  lemma {:induction false} ChainExact(acc: Tree, lo: nat, hi: nat, row: seq<real>)
    requires Within(acc, |row|) && lo <= hi <= |row|
    ensures Within(Chain(acc, lo, hi), |row|)
    ensures Eval(Exact(), Chain(acc, lo, hi), row) == Eval(Exact(), acc, row) + Sum(row, lo, hi)
    decreases hi
  {
    if lo < hi {
      ChainExact(acc, lo, hi - 1, row);
    }
  }

  lemma {:induction false} LaneWithin(first: nat, m: nat, n: nat)
    requires m >= 1 && first + 8 * (m - 1) < n
    ensures Within(Lane(first, m), n)
  {
    if m > 1 {
      LaneWithin(first, m - 1, n);
    }
  }

  lemma FourLanesWithin(first: nat, m: nat, n: nat)
    requires m >= 1 && first + 8 * (m - 1) + 4 <= n
    ensures Within(FourLanes(first, m), n)
  {
    LaneWithin(first, m, n); LaneWithin(first + 1, m, n); LaneWithin(first + 2, m, n); LaneWithin(first + 3, m, n);
  }

  lemma SumOfFour(row: seq<real>, b: nat)
    requires b + 4 <= |row|
    ensures Sum(row, b, b + 4) == row[b] + row[b + 1] + row[b + 2] + row[b + 3]
  {
    assert Sum(row, b, b + 1) == Sum(row, b, b) + row[b];
    assert Sum(row, b, b + 2) == Sum(row, b, b + 1) + row[b + 1];
    assert Sum(row, b, b + 3) == Sum(row, b, b + 2) + row[b + 2];
  }

  lemma LaneStep(first: nat, m: nat, row: seq<real>)
    requires m >= 1 && first + 8 * m < |row|
    ensures Within(Lane(first, m), |row|) && Within(Lane(first, m + 1), |row|)
    ensures Eval(Exact(), Lane(first, m + 1), row) == Eval(Exact(), Lane(first, m), row) + row[first + 8 * m]
  {
    LaneWithin(first, m, |row|);
    LaneWithin(first, m + 1, |row|);
  }

  lemma FourLanesSum(first: nat, m: nat, row: seq<real>)
    requires m >= 1 && first + 8 * (m - 1) + 4 <= |row|
    ensures Within(Lane(first, m), |row|) && Within(Lane(first + 1, m), |row|)
    ensures Within(Lane(first + 2, m), |row|) && Within(Lane(first + 3, m), |row|)
    ensures Within(FourLanes(first, m), |row|)
    ensures Eval(Exact(), FourLanes(first, m), row)
         == Eval(Exact(), Lane(first, m), row) + Eval(Exact(), Lane(first + 1, m), row)
          + Eval(Exact(), Lane(first + 2, m), row) + Eval(Exact(), Lane(first + 3, m), row)
  {
    var n := |row|;
    LaneWithin(first, m, n); LaneWithin(first + 1, m, n); LaneWithin(first + 2, m, n); LaneWithin(first + 3, m, n);
    FourLanesWithin(first, m, n);
  }

  lemma FourLanesStep(first: nat, m: nat, row: seq<real>)
    requires m >= 1 && first + 8 * m + 4 <= |row|
    ensures Within(FourLanes(first, m), |row|) && Within(FourLanes(first, m + 1), |row|)
    ensures Eval(Exact(), FourLanes(first, m + 1), row)
         == Eval(Exact(), FourLanes(first, m), row) + Sum(row, first + 8 * m, first + 8 * m + 4)
  {
    FourLanesSum(first, m, row);
    FourLanesSum(first, m + 1, row);
    LaneStep(first, m, row); LaneStep(first + 1, m, row); LaneStep(first + 2, m, row); LaneStep(first + 3, m, row);
    SumOfFour(row, first + 8 * m);
  }

  lemma {:induction false} LanesExact(off: nat, m: nat, row: seq<real>)
    requires m >= 1 && off + 8 * m <= |row|
    ensures Within(Lanes(off, m), |row|)
    ensures Eval(Exact(), Lanes(off, m), row) == Sum(row, off, off + 8 * m)
  {
    FourLanesWithin(off, m, |row|);
    FourLanesWithin(off + 4, m, |row|);
    if m == 1 {
      FirstFour(off, row);
      FirstFour(off + 4, row);
      SumSplit(row, off, off + 4, off + 8);
    } else {
      LanesExact(off, m - 1, row);
      FourLanesStep(off, m - 1, row);
      FourLanesStep(off + 4, m - 1, row);
      var b := off + 8 * (m - 1);
      SumSplit(row, off, b, b + 8);
      SumSplit(row, b, b + 4, b + 8);
    }
  }

  lemma FirstFour(first: nat, row: seq<real>)
    requires first + 4 <= |row|
    ensures Within(FourLanes(first, 1), |row|)
    ensures Eval(Exact(), FourLanes(first, 1), row) == Sum(row, first, first + 4)
  {
    FourLanesSum(first, 1, row);
    SumOfFour(row, first);
  }

  lemma BlockExact(off: nat, n: nat, row: seq<real>)
    requires 8 <= n <= BLOCK_SIZE && off + n <= |row|
    ensures Within(TreeOf(off, n), |row|)
    ensures Eval(Exact(), TreeOf(off, n), row) == Sum(row, off, off + n)
  {
    var m := n / 8;
    LanesExact(off, m, row);
    ChainExact(Lanes(off, m), off + m * 8, off + n, row);
    SumSplit(row, off, off + m * 8, off + n);
  }

  /** Re-associating over 8 lanes, a tail and two halves changes nothing when addition is exact. */
  lemma {:induction false} TreeExact(off: nat, n: nat, row: seq<real>)
    requires off + n <= |row|
    ensures Within(TreeOf(off, n), |row|)
    ensures Eval(Exact(), TreeOf(off, n), row) == Sum(row, off, off + n)
    decreases n
  {
    if n == 0 {
    } else if n < 8 {
      ChainExact(NegZero, off, off + n, row);
    } else if n <= BLOCK_SIZE {
      BlockExact(off, n, row);
    } else {
      TreeExact(off, Split(n), row);
      TreeExact(off + Split(n), n - Split(n), row);
      SumSplit(row, off, off + Split(n), off + n);
    }
  }

  // ----- How deep the tree is

  /** The largest number of additions any addend passes through. */
  function Height(t: Tree): nat {
    match t
    case Add(l, r) => 1 + Counting.Max(Height(l), Height(r))
    case _ => 0
  }

  lemma {:induction false} ChainHeight(acc: Tree, lo: nat, hi: nat)
    requires lo <= hi
    ensures Height(Chain(acc, lo, hi)) == Height(acc) + (hi - lo)
    decreases hi
  {
    if lo < hi {
      ChainHeight(acc, lo, hi - 1);
    }
  }

  lemma {:induction false} LaneHeight(first: nat, m: nat)
    requires m >= 1
    ensures Height(Lane(first, m)) == m - 1
  {
    if m > 1 {
      LaneHeight(first, m - 1);
    }
  }

  lemma FourLanesHeight(first: nat, m: nat)
    requires m >= 1
    ensures Height(FourLanes(first, m)) == m + 1
  {
    LaneHeight(first, m); LaneHeight(first + 1, m); LaneHeight(first + 2, m); LaneHeight(first + 3, m);
  }

  /** The exact height of a block: its lanes, three levels of combining, and the tail. */
  lemma BlockHeight(off: nat, n: nat)
    requires 8 <= n <= BLOCK_SIZE
    ensures Height(TreeOf(off, n)) == n / 8 + 2 + n % 8
  {
    FourLanesHeight(off, n / 8);
    FourLanesHeight(off + 4, n / 8);
    ChainHeight(Lanes(off, n / 8), off + n / 8 * 8, off + n);
  }

  /** A row of at most 16 + 112 * 2^levels terms is summed in height 24 + levels. */
  lemma {:induction false} HeightBound(off: nat, n: nat, levels: nat)
    requires n <= 16 + 112 * Pow2(levels)
    ensures Height(TreeOf(off, n)) <= 24 + levels
    decreases n
  {
    if n == 0 {
    } else if n < 8 {
      ChainHeight(NegZero, off, off + n);
    } else if n <= BLOCK_SIZE {
      BlockHeight(off, n);
    } else {
      assert levels > 0 by {
        assert levels == 0 ==> Pow2(levels) == 1;
      }
      HeightBound(off, Split(n), levels - 1);
      HeightBound(off + Split(n), n - Split(n), levels - 1);
    }
  }

  /** The bound is attained at every level: no smaller constant would do. */
  lemma {:induction false} HeightBoundIsTight(off: nat, n: nat, levels: nat)
    requires n == 15 + 112 * Pow2(levels)
    ensures Height(TreeOf(off, n)) == 24 + levels
    decreases levels
  {
    if levels == 0 {
      BlockHeight(off, n);
    } else {
      TightSplit(n, levels);
      var n2 := Split(n);
      HeightBound(off, n2, levels - 1);
      HeightBoundIsTight(off + n2, n - n2, levels - 1);
      SplitHeight(off, n, n2);
    }
  }

  lemma SplitHeight(off: nat, n: nat, n2: nat)
    requires n > BLOCK_SIZE && n2 == Split(n)
    ensures Height(TreeOf(off, n)) == 1 + Counting.Max(Height(TreeOf(off, n2)), Height(TreeOf(off + n2, n - n2)))
  {
  }

  /** A row of this length splits off a multiple of 112 and leaves a row of the same kind. */
  lemma TightSplit(n: nat, levels: nat)
    requires n == 15 + 112 * Pow2(levels) && levels > 0
    ensures n > BLOCK_SIZE && Split(n) == 112 * Pow2(levels - 1) && n - Split(n) == 15 + 112 * Pow2(levels - 1)
  {
    var p := Pow2(levels - 1);
    Grid.DivModUnique(n, 2, 7 + 112 * p, 1);
    Grid.DivModUnique(7 + 112 * p, 8, 14 * p, 7);
  }

  // ----- Rounded additions

  function Abs(x: real): real { if x < 0.0 then -x else x }

  function AbsAll(row: seq<real>): (r: seq<real>)
    ensures |r| == |row|
  {
    seq(|row|, k requires 0 <= k < |row| => Abs(row[k]))
  }

  function Power(b: real, k: nat): real { if k == 0 then 1.0 else b * Power(b, k - 1) }

  function Scale(u: real): real -> real { (x: real) => u * x }

  /** `add` returns a + b up to an error of eps(|a + b|). */
  ghost predicate RoundedAt(add: (real, real) -> real, eps: real -> real, a: real, b: real) {
    Abs(add(a, b) - (a + b)) <= eps(Abs(a + b))
  }

  /** `add` returns a + b up to the relative error u. */
  ghost predicate Rounds(add: (real, real) -> real, u: real) {
    u >= 0.0 && forall a, b :: RoundedAt(add, Scale(u), a, b)
  }

  function Plus(x: real, y: real): real { x + y }

  predicate AtMost(x: real, y: real) { x <= y }

  /** The trees are first treated with the error of one addition as an unknown function of the size
      of the sum: additive and monotone, as x => u * x is. */
  ghost predicate ErrorScale(eps: real -> real) {
    && (forall x, y {:trigger Plus(x, y)} :: eps(Plus(x, y)) == eps(x) + eps(y))
    && (forall x, y {:trigger AtMost(x, y)} :: AtMost(x, y) ==> eps(x) <= eps(y))
  }

  ghost predicate RoundsBy(add: (real, real) -> real, eps: real -> real) {
    ErrorScale(eps) && forall a, b :: RoundedAt(add, eps, a, b)
  }

  /** The exact value of a tree, and the sum of the absolute values of the terms it reads. */
  function Value(t: Tree, row: seq<real>): real
    requires Within(t, |row|)
  {
    match t
    case Leaf(p) => row[p]
    case Add(l, r) => Value(l, row) + Value(r, row)
    case _ => 0.0
  }

  function Mass(t: Tree, row: seq<real>): real
    requires Within(t, |row|)
  {
    match t
    case Leaf(p) => Abs(row[p])
    case Add(l, r) => Mass(l, row) + Mass(r, row)
    case _ => 0.0
  }

  lemma {:induction false} ValueIsExact(t: Tree, row: seq<real>)
    requires Within(t, |row|)
    ensures Value(t, row) == Eval(Exact(), t, row)
  {
    if t.Add? {
      ValueIsExact(t.left, row);
      ValueIsExact(t.right, row);
    }
  }

  lemma {:induction false} MassIsValueOfAbs(t: Tree, row: seq<real>)
    requires Within(t, |row|)
    ensures Mass(t, row) == Value(t, AbsAll(row))
  {
    if t.Add? {
      MassIsValueOfAbs(t.left, row);
      MassIsValueOfAbs(t.right, row);
    }
  }

  lemma {:induction false} ValueWithinMass(t: Tree, row: seq<real>)
    requires Within(t, |row|)
    ensures Abs(Value(t, row)) <= Mass(t, row)
  {
    if t.Add? {
      ValueWithinMass(t.left, row);
      ValueWithinMass(t.right, row);
    }
  }

  /** The error of one rounded addition of operands of sizes A and B already off by gA and gB. */
  function Step(eps: real -> real, A: real, B: real, gA: real, gB: real): real {
    eps(A + B + (gA + gB)) + (gA + gB)
  }

  /** The error each addition of a tree adds, accumulated upwards. */
  function ErrorBound(t: Tree, row: seq<real>, eps: real -> real): real
    requires Within(t, |row|)
  {
    match t
    case Add(l, r) =>
      Step(eps, Mass(l, row), Mass(r, row), ErrorBound(l, row, eps), ErrorBound(r, row, eps))
    case _ => 0.0
  }

  lemma Triangle(x: real, y: real, a: real, b: real, A: real, B: real, gA: real, gB: real)
    requires Abs(a) <= A && Abs(b) <= B && Abs(x - a) <= gA && Abs(y - b) <= gB
    ensures Abs(a + b) <= A + B && Abs(x + y) <= A + B + (gA + gB) && Abs((x + y) - (a + b)) <= gA + gB
  {
  }

  lemma ScaleMono(eps: real -> real, x: real, y: real)
    requires ErrorScale(eps) && x <= y
    ensures eps(x) <= eps(y)
  {
    assert AtMost(x, y);
  }

  lemma ScaleAdds(eps: real -> real, x: real, y: real)
    requires ErrorScale(eps)
    ensures eps(x + y) == eps(x) + eps(y)
  {
    assert Plus(x, y) == x + y;
  }

  /** The rounded sum of x and y, which stand for a and b. */
  lemma AddError(ar: Arith<real>, eps: real -> real, x: real, y: real, a: real, b: real,
                 A: real, B: real, gA: real, gB: real)
    requires RoundsBy(ar.add, eps)
    requires Abs(a) <= A && Abs(b) <= B
    requires Abs(x - a) <= gA && Abs(y - b) <= gB
    ensures Abs(ar.add(x, y) - (a + b)) <= Step(eps, A, B, gA, gB)
  {
    Triangle(x, y, a, b, A, B, gA, gB);
    ScaleMono(eps, Abs(x + y), A + B + (gA + gB));
    assert RoundedAt(ar.add, eps, x, y);
  }

  lemma Unfold(l: Tree, r: Tree, row: seq<real>, ar: Arith<real>, eps: real -> real)
    requires Within(Add(l, r), |row|)
    ensures Eval(ar, Add(l, r), row) == ar.add(Eval(ar, l, row), Eval(ar, r, row))
    ensures Value(Add(l, r), row) == Value(l, row) + Value(r, row)
    ensures ErrorBound(Add(l, r), row, eps)
         == Step(eps, Mass(l, row), Mass(r, row), ErrorBound(l, row, eps), ErrorBound(r, row, eps))
  {
  }

  lemma AddTreeError(l: Tree, r: Tree, row: seq<real>, ar: Arith<real>, eps: real -> real)
    requires Within(Add(l, r), |row|) && RoundsBy(ar.add, eps)
    requires Abs(Eval(ar, l, row) - Value(l, row)) <= ErrorBound(l, row, eps)
    requires Abs(Eval(ar, r, row) - Value(r, row)) <= ErrorBound(r, row, eps)
    ensures Abs(Eval(ar, Add(l, r), row) - Value(Add(l, r), row)) <= ErrorBound(Add(l, r), row, eps)
  {
    ValueWithinMass(l, row);
    ValueWithinMass(r, row);
    Unfold(l, r, row, ar, eps);
    AddError(ar, eps, Eval(ar, l, row), Eval(ar, r, row), Value(l, row), Value(r, row),
             Mass(l, row), Mass(r, row), ErrorBound(l, row, eps), ErrorBound(r, row, eps));
  }

  lemma {:induction false} TreeError(t: Tree, row: seq<real>, ar: Arith<real>, eps: real -> real)
    requires Within(t, |row|) && RoundsBy(ar.add, eps) && ar.zero == ar.negZero == 0.0
    ensures Abs(Eval(ar, t, row) - Value(t, row)) <= ErrorBound(t, row, eps)
  {
    match t
    case Add(l, r) =>
      TreeError(l, row, ar, eps);
      TreeError(r, row, ar, eps);
      AddTreeError(l, r, row, ar, eps);
    case _ =>
  }

  /** Error of a sum of size `m` after `h` additions in a row. */
  function Spread(eps: real -> real, h: nat, m: real): real {
    if h == 0 then 0.0 else eps(m + Spread(eps, h - 1, m)) + Spread(eps, h - 1, m)
  }

  lemma {:induction false} SpreadAdditive(eps: real -> real, h: nat, m: real, k: real)
    requires ErrorScale(eps)
    ensures Spread(eps, h, m) + Spread(eps, h, k) == Spread(eps, h, m + k)
  {
    if h > 0 {
      SpreadAdditive(eps, h - 1, m, k);
      ScaleAdds(eps, m + Spread(eps, h - 1, m), k + Spread(eps, h - 1, k));
    }
  }

  lemma {:induction false} SpreadNonNegative(eps: real -> real, h: nat, m: real)
    requires ErrorScale(eps) && m >= 0.0
    ensures Spread(eps, h, m) >= 0.0
  {
    if h > 0 {
      SpreadNonNegative(eps, h - 1, m);
      ScaleAdds(eps, 0.0, 0.0);
      ScaleMono(eps, 0.0, m + Spread(eps, h - 1, m));
    }
  }

  lemma SpreadStep(eps: real -> real, h: nat, A: real, B: real, gA: real, gB: real)
    requires ErrorScale(eps) && gA <= Spread(eps, h, A) && gB <= Spread(eps, h, B)
    ensures Step(eps, A, B, gA, gB) <= Spread(eps, h + 1, A + B)
  {
    SpreadAdditive(eps, h, A, B);
    ScaleMono(eps, A + B + (gA + gB), A + B + Spread(eps, h, A + B));
  }

  lemma {:induction false} MassNonNegative(t: Tree, row: seq<real>)
    requires Within(t, |row|)
    ensures Mass(t, row) >= 0.0
  {
    if t.Add? {
      MassNonNegative(t.left, row);
      MassNonNegative(t.right, row);
    }
  }

  lemma LeafGrowth(t: Tree, row: seq<real>, eps: real -> real, h: nat)
    requires Within(t, |row|) && !t.Add? && ErrorScale(eps)
    ensures ErrorBound(t, row, eps) <= Spread(eps, h, Mass(t, row))
  {
    MassNonNegative(t, row);
    SpreadNonNegative(eps, h, Mass(t, row));
  }

  lemma AddGrowth(l: Tree, r: Tree, row: seq<real>, eps: real -> real, h: nat)
    requires Within(Add(l, r), |row|) && ErrorScale(eps)
    requires ErrorBound(l, row, eps) <= Spread(eps, h, Mass(l, row))
    requires ErrorBound(r, row, eps) <= Spread(eps, h, Mass(r, row))
    ensures ErrorBound(Add(l, r), row, eps) <= Spread(eps, h + 1, Mass(Add(l, r), row))
  {
    SpreadStep(eps, h, Mass(l, row), Mass(r, row), ErrorBound(l, row, eps), ErrorBound(r, row, eps));
  }

  lemma AddParts(l: Tree, r: Tree, n: nat, h: nat)
    requires Within(Add(l, r), n) && Height(Add(l, r)) <= h
    ensures Within(l, n) && Within(r, n) && h >= 1 && Height(l) <= h - 1 && Height(r) <= h - 1
  {
  }

  /** Whatever its shape, a tree of height h accumulates at most the error of h additions in a row. */
  lemma {:induction false} ErrorGrowth(t: Tree, row: seq<real>, eps: real -> real, h: nat)
    requires Within(t, |row|) && Height(t) <= h && ErrorScale(eps)
    ensures ErrorBound(t, row, eps) <= Spread(eps, h, Mass(t, row))
  {
    match t
    case Add(l, r) =>
      AddParts(l, r, |row|, h);
      ErrorGrowth(l, row, eps, h - 1);
      ErrorGrowth(r, row, eps, h - 1);
      AddGrowth(l, r, row, eps, h - 1);
    case _ =>
      LeafGrowth(t, row, eps, h);
  }

  lemma {:induction false} SpreadClosedForm(u: real, h: nat, m: real)
    ensures Spread(Scale(u), h, m) == (Power(1.0 + u, h) - 1.0) * m
  {
    if h > 0 {
      SpreadClosedForm(u, h - 1, m);
      var p := Power(1.0 + u, h - 1);
      assert u * (m + (p - 1.0) * m) + (p - 1.0) * m == ((1.0 + u) * p - 1.0) * m;
    }
  }

  lemma ScaleMonotone(u: real, p: real, q: real)
    requires u >= 0.0 && p <= q
    ensures u * p <= u * q
  {
    assert u * (q - p) >= 0.0;
  }

  lemma ScaleIsErrorScale(u: real)
    requires u >= 0.0
    ensures ErrorScale(Scale(u))
  {
    forall x, y | AtMost(x, y) ensures Scale(u)(x) <= Scale(u)(y) {
      ScaleMonotone(u, x, y);
    }
    forall x, y ensures Scale(u)(Plus(x, y)) == Scale(u)(x) + Scale(u)(y) {
    }
  }

  lemma TreeMass(row: seq<real>)
    ensures Within(TreeOf(0, |row|), |row|)
    ensures Value(TreeOf(0, |row|), row) == Sum(row, 0, |row|)
    ensures Mass(TreeOf(0, |row|), row) == Sum(AbsAll(row), 0, |row|)
  {
    var t := TreeOf(0, |row|);
    TreeExact(0, |row|, row);
    TreeExact(0, |row|, AbsAll(row));
    ValueIsExact(t, row);
    ValueIsExact(t, AbsAll(row));
    MassIsValueOfAbs(t, row);
  }

  lemma ScoreSpread(row: seq<real>, ar: Arith<real>, eps: real -> real, k: nat)
    requires ar.zero == ar.negZero == 0.0 && RoundsBy(ar.add, eps)
    requires Height(TreeOf(0, |row|)) <= k
    ensures Abs(RowScore(ar, row) - Sum(row, 0, |row|)) <= Spread(eps, k, Sum(AbsAll(row), 0, |row|))
  {
    TreeMass(row);
    TreeError(TreeOf(0, |row|), row, ar, eps);
    ErrorGrowth(TreeOf(0, |row|), row, eps, k);
  }

  lemma RoundsByScale(add: (real, real) -> real, u: real)
    requires Rounds(add, u)
    ensures RoundsBy(add, Scale(u))
  {
    ScaleIsErrorScale(u);
  }

  function RelativeBound(u: real, k: nat, size: real): real { (Power(1.0 + u, k) - 1.0) * size }

  lemma SpreadIsRelative(error: real, u: real, k: nat, size: real)
    requires error <= Spread(Scale(u), k, size)
    ensures error <= RelativeBound(u, k, size)
  {
    SpreadClosedForm(u, k, size);
  }

  /** The score of a row under rounded addition against the exact sum of the row: the relative error
      is that of 24 + levels additions, where a plain running sum would have |row| of them. */
  lemma ScoreError(row: seq<real>, ar: Arith<real>, u: real, levels: nat)
    requires ar.zero == ar.negZero == 0.0 && Rounds(ar.add, u)
    requires |row| <= 16 + 112 * Pow2(levels)
    ensures Abs(RowScore(ar, row) - Sum(row, 0, |row|)) <= RelativeBound(u, 24 + levels, Sum(AbsAll(row), 0, |row|))
  {
    var k, error, size := 24 + levels, Abs(RowScore(ar, row) - Sum(row, 0, |row|)), Sum(AbsAll(row), 0, |row|);
    assert error <= Spread(Scale(u), k, size) by {
      HeightBound(0, |row|, levels);
      RoundsByScale(ar.add, u);
      ScoreSpread(row, ar, Scale(u), k);
    }
    SpreadIsRelative(error, u, k, size);
  }
}

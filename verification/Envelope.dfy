/** The work-exposure envelope of successive halving (_envelope of
    benchmarks/benchmark_mlff_size_halve1.py): every nested choice of survivors, against the two
    extreme choices. */
module Envelope {
  import opened Counting

  datatype Candidate = Candidate(work: int, s4: seq<int>, s2: seq<int>)

  datatype Packed = Packed(candidate: Candidate, reduction: real)

  /** What the caller gets; min() of no candidates and a division by zero are exceptions. */
  datatype Result = Envelope(full: int, best: Packed, worst: Packed) | EmptyCandidates | ZeroDivision

  function Total(s: seq<int>): int {
    if s == [] then 0 else s[0] + Total(s[1..])
  }

  function Exposure(a: seq<int>, s4: seq<int>, s2: seq<int>): int {
    3 * Total(a) + 7 * Total(s4) + 20 * Total(s2)
  }

  function Keep4(a: seq<int>): nat { if |a| < 4 then |a| else 4 }

  // ----- itertools.combinations

  /** Put x in front of every choice. */
  function Prefixed(x: int, choices: seq<seq<int>>): (r: seq<seq<int>>)
    ensures |r| == |choices| && forall i :: 0 <= i < |r| ==> r[i] == [x] + choices[i]
  {
    if choices == [] then [] else [[x] + choices[0]] + Prefixed(x, choices[1..])
  }

  /** The choices of k entries of a, in the order of their positions: with the first entry, then without. */
  function Combinations(a: seq<int>, k: nat): seq<seq<int>> {
    if k == 0 then [[]]
    else if a == [] then []
    else Prefixed(a[0], Combinations(a[1..], k - 1)) + Combinations(a[1..], k)
  }

  ghost predicate Increasing(s: seq<int>) { forall i, j :: 0 <= i < j < |s| ==> s[i] < s[j] }

  ghost predicate Within(s: seq<int>, a: seq<int>) { forall x :: x in s ==> x in a }

  /** s lists, in order, a k-element subset of the entries of a. */
  ghost predicate Chosen(s: seq<int>, a: seq<int>, k: nat) { |s| == k && Increasing(s) && Within(s, a) }

  lemma FirstIsLeast(a: seq<int>)
    requires Increasing(a) && a != []
    ensures Increasing(a[1..]) && forall x :: x in a[1..] ==> a[0] < x
    ensures forall x :: x in a <==> x == a[0] || x in a[1..]
  {
    TailElements(a);
  }

  lemma ChosenTail(s: seq<int>, a: seq<int>)
    requires Increasing(a) && a != [] && s != [] && Chosen(s, a, |s|)
    ensures if s[0] == a[0] then Chosen(s[1..], a[1..], |s| - 1) else Chosen(s, a[1..], |s|)
  {
    FirstIsLeast(a);
    FirstIsLeast(s);
    assert s[0] in s;
    if s[0] == a[0] {
      forall x | x in s[1..] ensures x in a[1..] {
        assert x in s;
      }
    } else {
      forall x | x in s ensures x in a[1..] {
        assert s[0] <= x && a[0] < s[0];
      }
    }
  }

  lemma ChosenFront(s: seq<int>, a: seq<int>)
    requires Increasing(a) && a != [] && s != [] && s[0] == a[0] && Chosen(s[1..], a[1..], |s| - 1)
    ensures Chosen(s, a, |s|)
  {
    FirstIsLeast(a);
    TailElements(s);
    forall i, j | 0 <= i < j < |s| ensures s[i] < s[j] {
      assert s[j] == s[1..][j - 1] && s[1..][j - 1] in s[1..];
      assert i > 0 ==> s[i] == s[1..][i - 1];
    }
  }

  lemma IncreasingFrom(a: seq<int>, i: nat)
    requires Increasing(a) && i <= |a|
    ensures Increasing(a[i..])
  {
  }

  lemma ChosenStep(s: seq<int>, a: seq<int>, k: nat)
    requires Increasing(a) && a != [] && k > 0
    ensures Chosen(s, a, k) <==>
              Chosen(s, a[1..], k) || (s != [] && s[0] == a[0] && Chosen(s[1..], a[1..], k - 1))
  {
    if Chosen(s, a, k) {
      ChosenTail(s, a);
    }
    if s != [] && s[0] == a[0] && Chosen(s[1..], a[1..], k - 1) {
      ChosenFront(s, a);
    }
  }

  lemma InPrefixed(x: int, choices: seq<seq<int>>, s: seq<int>)
    ensures s in Prefixed(x, choices) <==> s != [] && s[0] == x && s[1..] in choices
  {
    if s != [] && s[0] == x && s[1..] in choices {
      var i :| 0 <= i < |choices| && choices[i] == s[1..];
      assert Prefixed(x, choices)[i] == s;
    }
    if s in Prefixed(x, choices) {
      var i :| 0 <= i < |choices| && Prefixed(x, choices)[i] == s;
      assert s[1..] == choices[i];
    }
  }

  lemma CombinationsStep(a: seq<int>, k: nat, s: seq<int>)
    requires a != [] && k > 0
    ensures s in Combinations(a, k) <==>
              s in Combinations(a[1..], k) || (s != [] && s[0] == a[0] && s[1..] in Combinations(a[1..], k - 1))
  {
    InPrefixed(a[0], Combinations(a[1..], k - 1), s);
  }

  /** Listed exactly if chosen. */
  ghost predicate ListedIfChosen(a: seq<int>, k: nat, s: seq<int>) { s in Combinations(a, k) <==> Chosen(s, a, k) }

  lemma NothingToChoose(a: seq<int>, k: nat, s: seq<int>)
    requires k == 0 || a == []
    ensures ListedIfChosen(a, k, s)
  {
    if k == 0 {
      assert Combinations(a, 0) == [[]];
    } else {
      assert |s| == k ==> s[0] in s;
    }
  }

  lemma SubsetsStep(a: seq<int>, k: nat, s: seq<int>)
    requires Increasing(a) && a != [] && k > 0
    requires ListedIfChosen(a[1..], k, s) && (s != [] ==> ListedIfChosen(a[1..], k - 1, s[1..]))
    ensures ListedIfChosen(a, k, s)
  {
    CombinationsStep(a, k, s);
    ChosenStep(s, a, k);
  }

  lemma {:induction false} AllListedIfChosen(a: seq<int>)
    requires Increasing(a)
    ensures forall k: nat, s :: ListedIfChosen(a, k, s)
    decreases |a|
  {
    if a != [] {
      IncreasingFrom(a, 1);
      AllListedIfChosen(a[1..]);
    }
    forall k: nat, s ensures ListedIfChosen(a, k, s) {
      if k == 0 || a == [] {
        NothingToChoose(a, k, s);
      } else {
        SubsetsStep(a, k, s);
      }
    }
  }

  /** Every subset of the given size is listed, and nothing else. */
  lemma CombinationsAreSubsets(a: seq<int>, k: nat, s: seq<int>)
    requires Increasing(a)
    ensures s in Combinations(a, k) <==> Chosen(s, a, k)
  {
    AllListedIfChosen(a);
    assert ListedIfChosen(a, k, s);
  }

  /** No subset is listed twice. */
  lemma {:induction false} CombinationsDistinct(a: seq<int>, k: nat)
    requires Increasing(a)
    ensures Distinct(Combinations(a, k))
  {
    if k > 0 && a != [] {
      FirstIsLeast(a);
      CombinationsDistinct(a[1..], k - 1);
      CombinationsDistinct(a[1..], k);
      var with, without := Prefixed(a[0], Combinations(a[1..], k - 1)), Combinations(a[1..], k);
      PrefixedDistinct(a[0], Combinations(a[1..], k - 1));
      forall i, j | 0 <= i < |with| && 0 <= j < |without| ensures with[i] != without[j] {
        CombinationsAreSubsets(a[1..], k, without[j]);
        assert with[i][0] == a[0] && without[j][0] in without[j];
      }
      AppendDistinct(with, without);
    }
  }

  lemma PrefixedDistinct(x: int, choices: seq<seq<int>>)
    requires Distinct(choices)
    ensures Distinct(Prefixed(x, choices))
  {
    var r := Prefixed(x, choices);
    forall i, j | 0 <= i < j < |r| ensures r[i] != r[j] {
      assert r[i][1..] == choices[i] && r[j][1..] == choices[j];
    }
  }

  lemma AppendDistinct<T>(a: seq<T>, b: seq<T>)
    requires Distinct(a) && Distinct(b)
    requires forall i, j :: 0 <= i < |a| && 0 <= j < |b| ==> a[i] != b[j]
    ensures Distinct(a + b)
  {
  }

  // ----- Candidates

  /** One finalist pair of survivors s4 after another. */
  function Pairs(a: seq<int>, s4: seq<int>, pairs: seq<seq<int>>): (r: seq<Candidate>)
    ensures |r| == |pairs|
    ensures forall i :: 0 <= i < |r| ==> r[i] == Candidate(Exposure(a, s4, pairs[i]), s4, pairs[i])
  {
    seq(|pairs|, i requires 0 <= i < |pairs| => Candidate(Exposure(a, s4, pairs[i]), s4, pairs[i]))
  }

  function CandidatesOf(a: seq<int>, survivors: seq<seq<int>>): seq<Candidate> {
    if survivors == [] then []
    else
      var k := |survivors| - 1;
      CandidatesOf(a, survivors[..k]) + Pairs(a, survivors[k], Combinations(survivors[k], 2))
  }

  function Candidates(a: seq<int>): seq<Candidate> { CandidatesOf(a, Combinations(a, Keep4(a))) }

  /** c is a choice of survivors of a and, among them, of two finalists. */
  ghost predicate Nested(a: seq<int>, c: Candidate) {
    && Chosen(c.s4, a, Keep4(a))
    && Chosen(c.s2, c.s4, 2)
    && c.work == Exposure(a, c.s4, c.s2)
  }

  lemma InPairs(a: seq<int>, s4: seq<int>, pairs: seq<seq<int>>, c: Candidate)
    ensures c in Pairs(a, s4, pairs) <==> c.s4 == s4 && c.s2 in pairs && c.work == Exposure(a, s4, c.s2)
  {
    if c.s4 == s4 && c.s2 in pairs && c.work == Exposure(a, s4, c.s2) {
      var i :| 0 <= i < |pairs| && pairs[i] == c.s2;
      assert Pairs(a, s4, pairs)[i] == c;
    }
  }

  lemma {:induction false} InCandidatesOf(a: seq<int>, survivors: seq<seq<int>>, c: Candidate)
    ensures c in CandidatesOf(a, survivors) <==>
              c.s4 in survivors && c.s2 in Combinations(c.s4, 2) && c.work == Exposure(a, c.s4, c.s2)
  {
    if survivors != [] {
      var k := |survivors| - 1;
      InCandidatesOf(a, survivors[..k], c);
      InPairs(a, survivors[k], Combinations(survivors[k], 2), c);
      assert survivors == survivors[..k] + [survivors[k]];
    }
  }

  /** The candidates are the nested choices, all of them. */
  lemma CandidatesAreNested(a: seq<int>, c: Candidate)
    requires Increasing(a)
    ensures c in Candidates(a) <==> Nested(a, c)
  {
    InCandidatesOf(a, Combinations(a, Keep4(a)), c);
    CombinationsAreSubsets(a, Keep4(a), c.s4);
    if Chosen(c.s4, a, Keep4(a)) {
      CombinationsAreSubsets(c.s4, 2, c.s2);
    }
  }

  lemma {:induction false} CandidatesOfDistinct(a: seq<int>, survivors: seq<seq<int>>)
    requires Distinct(survivors)
    requires forall s :: s in survivors ==> Increasing(s)
    ensures Distinct(CandidatesOf(a, survivors))
  {
    if survivors != [] {
      var k := |survivors| - 1;
      var front, last := survivors[..k], survivors[k];
      assert survivors == front + [last];
      CandidatesOfDistinct(a, front);
      CombinationsDistinct(last, 2);
      var before, pairs := CandidatesOf(a, front), Pairs(a, last, Combinations(last, 2));
      forall i, j | 0 <= i < |before| && 0 <= j < |pairs| ensures before[i] != pairs[j] {
        InCandidatesOf(a, front, before[i]);
        assert last !in front;
      }
      assert Distinct(pairs) by {
        var choices := Combinations(last, 2);
        assert forall i, j :: 0 <= i < j < |pairs| ==> choices[i] != choices[j];
      }
      AppendDistinct(before, pairs);
    }
  }

  /** No nested choice is enumerated twice. */
  lemma CandidatesDistinct(a: seq<int>)
    requires Increasing(a)
    ensures Distinct(Candidates(a))
  {
    CombinationsDistinct(a, Keep4(a));
    forall s | s in Combinations(a, Keep4(a)) ensures Increasing(s) {
      CombinationsAreSubsets(a, Keep4(a), s);
    }
    CandidatesOfDistinct(a, Combinations(a, Keep4(a)));
  }

  // ----- The exchange argument

  /** The i-th smallest of a subset is at position i or later of the whole, and as far from the end. */
  lemma {:induction false} Position(a: seq<int>, s: seq<int>, i: nat) returns (p: nat)
    requires Increasing(a) && Chosen(s, a, |s|) && i < |s|
    ensures i <= p < |a| && a[p] == s[i]
  {
    assert s[i] in s;
    p :| 0 <= p < |a| && a[p] == s[i];
    if i > 0 {
      var q := Position(a, s, i - 1);
      assert s[i - 1] < s[i];
      assert q < p;
    }
  }

  lemma {:induction false} PositionFromEnd(a: seq<int>, s: seq<int>, i: nat) returns (p: nat)
    requires Increasing(a) && Chosen(s, a, |s|) && i < |s|
    ensures p < |a| && a[p] == s[i] && |s| - i <= |a| - p
    decreases |s| - i
  {
    assert s[i] in s;
    p :| 0 <= p < |a| && a[p] == s[i];
    if i + 1 < |s| {
      var q := PositionFromEnd(a, s, i + 1);
      assert s[i] < s[i + 1];
      assert p < q;
    }
  }

  lemma SubsetBounds(a: seq<int>, s: seq<int>)
    requires Increasing(a) && Chosen(s, a, |s|)
    ensures |s| <= |a|
    ensures forall i :: 0 <= i < |s| ==> a[i] <= s[i] <= a[|a| - |s| + i]
  {
    if s != [] {
      var p := PositionFromEnd(a, s, 0);
    }
    forall i | 0 <= i < |s| ensures a[i] <= s[i] <= a[|a| - |s| + i] {
      var p := Position(a, s, i);
      var q := PositionFromEnd(a, s, i);
    }
  }

  lemma {:induction false} TotalMonotone(s: seq<int>, t: seq<int>)
    requires |s| == |t| && forall i :: 0 <= i < |s| ==> s[i] <= t[i]
    ensures Total(s) <= Total(t)
    ensures Total(s) == Total(t) ==> s == t
  {
    if s != [] {
      TotalMonotone(s[1..], t[1..]);
      assert s == [s[0]] + s[1..] && t == [t[0]] + t[1..];
    }
  }

  /** Among the subsets of one size the first entries have the least total and the last ones the
      greatest, and no other subset ties. */
  lemma SubsetTotals(a: seq<int>, s: seq<int>)
    requires Increasing(a) && Chosen(s, a, |s|)
    ensures |s| <= |a| && Total(a[..|s|]) <= Total(s) <= Total(a[|a| - |s|..])
    ensures Total(s) == Total(a[..|s|]) ==> s == a[..|s|]
    ensures Total(s) == Total(a[|a| - |s|..]) ==> s == a[|a| - |s|..]
  {
    SubsetBounds(a, s);
    TotalMonotone(a[..|s|], s);
    TotalMonotone(s, a[|a| - |s|..]);
  }

  function Smallest(a: seq<int>): Candidate
    requires |a| >= 2
  {
    Candidate(Exposure(a, a[..Keep4(a)], a[..2]), a[..Keep4(a)], a[..2])
  }

  function Largest(a: seq<int>): Candidate
    requires |a| >= 2
  {
    Candidate(Exposure(a, a[|a| - Keep4(a)..], a[|a| - 2..]), a[|a| - Keep4(a)..], a[|a| - 2..])
  }

  lemma SliceChosen(a: seq<int>, i: nat, j: nat)
    requires Increasing(a) && i <= j <= |a|
    ensures Chosen(a[i..j], a, j - i)
  {
  }

  lemma SmallestNested(a: seq<int>)
    requires Increasing(a) && |a| >= 2
    ensures Nested(a, Smallest(a))
  {
    var s4 := a[..Keep4(a)];
    SliceChosen(a, 0, Keep4(a));
    SliceChosen(s4, 0, 2);
    assert s4 == a[0..Keep4(a)] && a[..2] == s4[0..2];
  }

  lemma LargestNested(a: seq<int>)
    requires Increasing(a) && |a| >= 2
    ensures Nested(a, Largest(a))
  {
    var k := Keep4(a);
    var s4 := a[|a| - k..];
    SliceChosen(a, |a| - k, |a|);
    SliceChosen(s4, k - 2, k);
    assert s4 == a[|a| - k..|a|] && a[|a| - 2..] == s4[k - 2..k];
  }

  lemma SmallestIsLeast(a: seq<int>, c: Candidate)
    requires Increasing(a) && |a| >= 2 && Nested(a, c)
    ensures Smallest(a).work <= c.work && (c.work == Smallest(a).work <==> c == Smallest(a))
  {
    SubsetTotals(a, c.s4);
    SubsetTotals(a, c.s2);
  }

  lemma LargestIsGreatest(a: seq<int>, c: Candidate)
    requires Increasing(a) && |a| >= 2 && Nested(a, c)
    ensures c.work <= Largest(a).work && (c.work == Largest(a).work <==> c == Largest(a))
  {
    SubsetTotals(a, c.s4);
    SubsetTotals(a, c.s2);
  }

  /** The least work is that of the smallest survivors and the greatest that of the largest; each is
      reached by one candidate only. */
  lemma Extremes(a: seq<int>, c: Candidate)
    requires Increasing(a) && |a| >= 2 && Nested(a, c)
    ensures Smallest(a).work <= c.work <= Largest(a).work
    ensures c.work == Smallest(a).work <==> c == Smallest(a)
    ensures c.work == Largest(a).work <==> c == Largest(a)
  {
    SmallestIsLeast(a, c);
    LargestIsGreatest(a, c);
  }

  lemma {:induction false} TotalSplit(a: seq<int>, k: nat)
    requires k <= |a|
    ensures Total(a) == Total(a[..k]) + Total(a[k..])
  {
    if k > 0 {
      TotalSplit(a[1..], k - 1);
      assert a[..k] == [a[0]] + a[1..][..k - 1];
      assert a[k..] == a[1..][k - 1..];
    }
  }

  ghost predicate Positive(s: seq<int>) { forall i :: 0 <= i < |s| ==> s[i] > 0 }

  lemma {:induction false} TotalPositive(s: seq<int>)
    requires Positive(s)
    ensures Total(s) >= 0 && (Total(s) == 0 <==> s == [])
  {
    if s != [] {
      TotalPositive(s[1..]);
    }
  }

  lemma SubsetTotalBelow(a: seq<int>, s: seq<int>)
    requires Increasing(a) && Positive(a) && Chosen(s, a, |s|) && s != []
    ensures |s| <= |a| && 0 < Total(s) <= Total(a)
    ensures Total(s) == Total(a) <==> |s| == |a|
  {
    SubsetBounds(a, s);
    TotalPositive(s);
    var skip := |a| - |s|;
    TotalSplit(a, skip);
    TotalPositive(a[..skip]);
    TotalMonotone(s, a[skip..]);
    if skip == 0 {
      assert s == a;
    }
  }

  /** Every choice costs more than the first screen alone and at most all sizes to the end, which it
      reaches exactly when there are only two sizes. */
  lemma ExposureBounds(a: seq<int>, c: Candidate)
    requires Increasing(a) && Positive(a) && |a| >= 2 && Nested(a, c)
    ensures 3 * Total(a) < c.work <= 30 * Total(a)
    ensures c.work == 30 * Total(a) <==> |a| == 2
  {
    SubsetTotalBelow(a, c.s4);
    SubsetTotalBelow(a, c.s2);
  }

  // ----- The envelope

  /** The first of the candidates with the least (greatest) work. */
  ghost predicate IsBest(cs: seq<Candidate>, c: Candidate) {
    exists i :: 0 <= i < |cs| && cs[i] == c && forall j :: 0 <= j < |cs| ==>
      c.work <= cs[j].work && (j < i ==> c.work < cs[j].work)
  }

  ghost predicate IsWorst(cs: seq<Candidate>, c: Candidate) {
    exists i :: 0 <= i < |cs| && cs[i] == c && forall j :: 0 <= j < |cs| ==>
      cs[j].work <= c.work && (j < i ==> cs[j].work < c.work)
  }

  function Reduction(work: int, full: int): real
    requires full != 0
  {
    100.0 * (1.0 - work as real / full as real)
  }

  function Pack(c: Candidate, full: int): Packed
    requires full != 0
  {
    Packed(c, Reduction(c.work, full))
  }

  lemma {:induction false} NoCandidates(a: seq<int>)
    ensures Candidates(a) == [] <==> |a| < 2
  {
    if |a| == 0 {
      assert Combinations(a, 0) == [[]];
    } else if |a| == 1 {
      assert Combinations(a[1..], 0) == [[]] && Combinations(a[1..], 1) == [];
      var only := Combinations(a, 1);
      assert |only| == 1 && only[0] == [a[0]];
      assert CandidatesOf(a, only[..0]) == [];
      assert Combinations([a[0]], 2) == Prefixed(a[0], Combinations([a[0]][1..], 1)) + Combinations([a[0]][1..], 2);
    } else {
      FirstChosen(a, Keep4(a));
      FirstChosen(a[..Keep4(a)], 2);
      var c := Smallest(a);
      assert a[..2] == a[..Keep4(a)][..2];
      InCandidatesOf(a, Combinations(a, Keep4(a)), c);
    }
  }

  lemma FrontTail(a: seq<int>, k: nat)
    requires 0 < k <= |a|
    ensures a[..k] != [] && a[..k][0] == a[0] && a[..k][1..] == a[1..][..k - 1]
  {
  }

  lemma {:induction false} FirstChosen(a: seq<int>, k: nat)
    requires k <= |a|
    ensures a[..k] in Combinations(a, k)
  {
    if k == 0 {
      assert Combinations(a, 0) == [[]];
    } else {
      var front := a[..k];
      FrontTail(a, k);
      FirstChosen(a[1..], k - 1);
      CombinationsStep(a, k, front);
    }
  }

  /** The inner loop: the finalist pairs of the survivors s4. */
  method AddPairs(a: seq<int>, s4: seq<int>, candidates: seq<Candidate>) returns (candidates': seq<Candidate>)
    ensures candidates' == candidates + Pairs(a, s4, Combinations(s4, 2))
  {
    var finalists := Combinations(s4, 2);
    candidates' := candidates;
    for j := 0 to |finalists|
      invariant candidates' == candidates + Pairs(a, s4, finalists)[..j]
    {
      var s2 := finalists[j];
      candidates' := candidates' + [Candidate(Exposure(a, s4, s2), s4, s2)];
    }
  }

  /** The nested loops. */
  method Enumerate(a: seq<int>) returns (candidates: seq<Candidate>)
    ensures candidates == Candidates(a)
  {
    candidates := [];
    var survivors := Combinations(a, Keep4(a));
    for i := 0 to |survivors|
      invariant candidates == CandidatesOf(a, survivors[..i])
    {
      candidates := AddPairs(a, survivors[i], candidates);
      assert survivors[..i + 1][..i] == survivors[..i];
    }
    assert survivors[..|survivors|] == survivors;
  }

  /** The least and the greatest work; of several candidates with the same work the first. */
  method MinMax(cs: seq<Candidate>) returns (best: Candidate, worst: Candidate)
    requires cs != []
    ensures IsBest(cs, best) && IsWorst(cs, worst)
  {
    best, worst := cs[0], cs[0];
    ghost var b, w := 0, 0;
    for i := 1 to |cs|
      invariant 0 <= b < i && cs[b] == best && 0 <= w < i && cs[w] == worst
      invariant forall j :: 0 <= j < i ==> best.work <= cs[j].work && (j < b ==> best.work < cs[j].work)
      invariant forall j :: 0 <= j < i ==> cs[j].work <= worst.work && (j < w ==> cs[j].work < worst.work)
    {
      if cs[i].work < best.work {
        best, b := cs[i], i;
      }
      if worst.work < cs[i].work {
        worst, w := cs[i], i;
      }
    }
  }

  /** _envelope */
  method EnvelopeOf(a: seq<int>) returns (r: Result)
    ensures r.EmptyCandidates? <==> |a| < 2
    ensures r.ZeroDivision? <==> |a| >= 2 && Total(a) == 0
    ensures r.Envelope? ==>
              && r.full == 30 * Total(a) && r.full != 0
              && IsBest(Candidates(a), r.best.candidate) && r.best == Pack(r.best.candidate, r.full)
              && IsWorst(Candidates(a), r.worst.candidate) && r.worst == Pack(r.worst.candidate, r.full)
  {
    var candidates := Enumerate(a);
    NoCandidates(a);
    if candidates == [] {
      return EmptyCandidates;
    }
    var best, worst := MinMax(candidates);
    var full := 30 * Total(a);
    if full == 0 {
      return ZeroDivision;
    }
    r := Envelope(full, Pack(best, full), Pack(worst, full));
  }

  /** On a ladder the brute-force best and worst are the closed forms. */
  lemma EnvelopeOfLadder(a: seq<int>, best: Candidate, worst: Candidate)
    requires Increasing(a) && |a| >= 2
    requires IsBest(Candidates(a), best) && IsWorst(Candidates(a), worst)
    ensures best == Smallest(a) && worst == Largest(a)
  {
    SmallestNested(a);
    LargestNested(a);
    CandidatesAreNested(a, Smallest(a));
    CandidatesAreNested(a, Largest(a));
    CandidatesAreNested(a, best);
    CandidatesAreNested(a, worst);
    Extremes(a, best);
    Extremes(a, worst);
  }

  /** A packed candidate keeps its choices; its reduction is the share of the full work it saves. */
  lemma PackIs(c: Candidate, full: int)
    requires full != 0
    ensures Pack(c, full).candidate == c
    ensures Pack(c, full).reduction * full as real == 100.0 * (full - c.work) as real
  {
    var work, all := c.work as real, full as real;
    assert work / all * all == work;
  }

  /** Every reduction of a positive ladder lies from 0 to below 90 percent, and is 0 only for two sizes. */
  lemma ReductionBounds(a: seq<int>, c: Candidate)
    requires Increasing(a) && Positive(a) && |a| >= 2 && Nested(a, c)
    ensures Total(a) > 0 && 0.0 <= Pack(c, 30 * Total(a)).reduction < 90.0
    ensures Pack(c, 30 * Total(a)).reduction == 0.0 <==> |a| == 2
  {
    ExposureBounds(a, c);
    TotalPositive(a);
    var work, full := c.work as real, (30 * Total(a)) as real;
    Ratio(work, full);
  }

  lemma Ratio(work: real, full: real)
    requires full > 0.0 && full < 10.0 * work && work <= full
    ensures 0.1 < work / full <= 1.0
    ensures work / full == 1.0 <==> work == full
  {
    var q := work / full;
    assert q * full == work;
    if q <= 0.1 {
      MulLess(q, 0.1, full);
    }
    if q > 1.0 {
      MulLess(1.0, q, full);
    }
  }

  lemma MulLess(p: real, q: real, full: real)
    requires p <= q && full > 0.0
    ensures p * full <= q * full && (p < q ==> p * full < q * full)
  {
  }

  const DEFAULT_SIZES: seq<int> := [128, 256, 512, 1024, 2048, 4096, 8192]

  lemma DefaultTotals()
    ensures Increasing(DEFAULT_SIZES) && |DEFAULT_SIZES| == 7 && 30 * Total(DEFAULT_SIZES) == 487680
    ensures Smallest(DEFAULT_SIZES).work == 69888 && Largest(DEFAULT_SIZES).work == 402048
  {
    var a := DEFAULT_SIZES;
    TotalSplit(a, 2);
    TotalSplit(a, 3);
    TotalSplit(a, 4);
    TotalSplit(a, 5);
    assert a[..2] == [128, 256] && a[..4] == [128, 256, 512, 1024];
    assert a[3..] == [1024, 2048, 4096, 8192] && a[5..] == [4096, 8192];
  }

  lemma Percentages()
    ensures 85.665 < Reduction(69888, 487680) < 85.675 && 17.555 < Reduction(402048, 487680) < 17.565
  {
  }

  /** The brute force over the default ladder gives the published 85.67 and 17.56 percent. */
  lemma DefaultEnvelope(a: seq<int>, best: Candidate, worst: Candidate)
    requires a == DEFAULT_SIZES && IsBest(Candidates(a), best) && IsWorst(Candidates(a), worst)
    ensures 85.665 < Pack(best, 487680).reduction < 85.675
    ensures 17.555 < Pack(worst, 487680).reduction < 17.565
  {
    DefaultTotals();
    assert best.work == 69888 && worst.work == 402048 by {
      EnvelopeOfLadder(a, best, worst);
    }
    Percentages();
  }
}

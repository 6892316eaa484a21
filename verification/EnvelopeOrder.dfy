/** The order of the enumeration, for ladders of any numbers: combinations choose positions, the earlier
    positions first, and min() and max() keep the first of equals. */
module EnvelopeOrder {
  import opened Envelope

  function Mapped(f: int -> int, s: seq<int>): (r: seq<int>)
    ensures |r| == |s| && forall i :: 0 <= i < |r| ==> r[i] == f(s[i])
  {
    seq(|s|, i requires 0 <= i < |s| => f(s[i]))
  }

  function MappedAll(f: int -> int, choices: seq<seq<int>>): (r: seq<seq<int>>)
    ensures |r| == |choices| && forall i :: 0 <= i < |r| ==> r[i] == Mapped(f, choices[i])
  {
    seq(|choices|, i requires 0 <= i < |choices| => Mapped(f, choices[i]))
  }

  lemma MappedFront(f: int -> int, x: int, s: seq<int>)
    ensures Mapped(f, [x] + s) == [f(x)] + Mapped(f, s)
  {
  }

  lemma PrefixedMapped(f: int -> int, x: int, choices: seq<seq<int>>)
    ensures Prefixed(f(x), MappedAll(f, choices)) == MappedAll(f, Prefixed(x, choices))
  {
    var left, right := Prefixed(f(x), MappedAll(f, choices)), MappedAll(f, Prefixed(x, choices));
    forall i | 0 <= i < |choices| ensures left[i] == right[i] {
      MappedFront(f, x, choices[i]);
    }
  }

  lemma MappedAppend(f: int -> int, a: seq<seq<int>>, b: seq<seq<int>>)
    ensures MappedAll(f, a + b) == MappedAll(f, a) + MappedAll(f, b)
  {
  }

  lemma FirstOrNot(s: seq<int>, k: nat)
    requires k > 0 && s != []
    ensures Combinations(s, k) == Prefixed(s[0], Combinations(s[1..], k - 1)) + Combinations(s[1..], k)
  {
  }

  lemma NothingMapped(f: int -> int, s: seq<int>, k: nat)
    requires k == 0 || s == []
    ensures Combinations(Mapped(f, s), k) == MappedAll(f, Combinations(s, k))
  {
    assert Mapped(f, []) == [];
  }

  lemma StepMapped(f: int -> int, s: seq<int>, k: nat, t: seq<int>)
    requires k > 0 && s != [] && t == Mapped(f, s)
    requires Combinations(Mapped(f, s[1..]), k - 1) == MappedAll(f, Combinations(s[1..], k - 1))
    requires Combinations(Mapped(f, s[1..]), k) == MappedAll(f, Combinations(s[1..], k))
    ensures Combinations(t, k) == MappedAll(f, Combinations(s, k))
  {
    var with, without := Combinations(s[1..], k - 1), Combinations(s[1..], k);
    FirstOrNot(s, k);
    FirstOrNot(t, k);
    assert t[0] == f(s[0]) && t[1..] == Mapped(f, s[1..]);
    PrefixedMapped(f, s[0], with);
    MappedAppend(f, Prefixed(s[0], with), without);
  }

  /** Choosing does not look at the entries. */
  lemma {:induction false} CombinationsMapped(f: int -> int, s: seq<int>, k: nat)
    ensures Combinations(Mapped(f, s), k) == MappedAll(f, Combinations(s, k))
  {
    if k == 0 || s == [] {
      NothingMapped(f, s, k);
    } else {
      CombinationsMapped(f, s[1..], k - 1);
      CombinationsMapped(f, s[1..], k);
      StepMapped(f, s, k, Mapped(f, s));
    }
  }

  function Positions(n: nat): (r: seq<int>)
    ensures |r| == n && Increasing(r) && forall i :: 0 <= i < n ==> r[i] == i
  {
    seq(n, i => i)
  }

  function EntryOf(a: seq<int>): int -> int { i => if 0 <= i < |a| then a[i] else 0 }

  lemma EntriesOfPositions(a: seq<int>)
    ensures Mapped(EntryOf(a), Positions(|a|)) == a
  {
  }

  /** Choice i of a takes the entries at the positions of choice i of the positions. */
  lemma CombinationsByPosition(a: seq<int>, k: nat)
    ensures |Combinations(a, k)| == |Combinations(Positions(|a|), k)|
    ensures forall i :: 0 <= i < |Combinations(a, k)| ==>
              var s, p := Combinations(a, k)[i], Combinations(Positions(|a|), k)[i];
              && |s| == |p| == k && Increasing(p)
              && forall j :: 0 <= j < k ==> 0 <= p[j] < |a| && s[j] == a[p[j]]
  {
    EntriesOfPositions(a);
    CombinationsMapped(EntryOf(a), Positions(|a|), k);
    forall i | 0 <= i < |Combinations(a, k)|
      ensures Chosen(Combinations(Positions(|a|), k)[i], Positions(|a|), k)
    {
      CombinationsAreSubsets(Positions(|a|), k, Combinations(Positions(|a|), k)[i]);
    }
    forall i, j | 0 <= i < |Combinations(a, k)| && 0 <= j < k
      ensures 0 <= Combinations(Positions(|a|), k)[i][j] < |a|
    {
      var p := Combinations(Positions(|a|), k)[i];
      assert p[j] in p;
    }
  }

  // ----- The order

  ghost predicate Sooner(s: seq<int>, t: seq<int>) {
    exists d :: 0 <= d < |s| && d < |t| && s[d] < t[d] && forall e :: 0 <= e < d ==> s[e] == t[e]
  }

  ghost predicate InOrder(choices: seq<seq<int>>) {
    forall i, j :: 0 <= i < j < |choices| ==> Sooner(choices[i], choices[j])
  }

  lemma SoonerBehind(x: int, s: seq<int>, t: seq<int>)
    requires Sooner(s, t)
    ensures Sooner([x] + s, [x] + t)
  {
    var d :| 0 <= d < |s| && d < |t| && s[d] < t[d] && forall e :: 0 <= e < d ==> s[e] == t[e];
    assert ([x] + s)[d + 1] < ([x] + t)[d + 1];
  }

  /** Where two choices first differ, the earlier has the smaller entry. */
  lemma {:induction false} CombinationsInOrder(a: seq<int>, k: nat)
    requires Increasing(a)
    ensures InOrder(Combinations(a, k))
  {
    if k > 0 && a != [] {
      FirstIsLeast(a);
      CombinationsInOrder(a[1..], k - 1);
      CombinationsInOrder(a[1..], k);
      var choices, without := Combinations(a[1..], k - 1), Combinations(a[1..], k);
      var with := Prefixed(a[0], choices);
      forall i, j | 0 <= i < j < |with| ensures Sooner(with[i], with[j]) {
        SoonerBehind(a[0], choices[i], choices[j]);
      }
      forall i, j | 0 <= i < |with| && 0 <= j < |without| ensures Sooner(with[i], without[j]) {
        CombinationsAreSubsets(a[1..], k, without[j]);
        assert without[j][0] in without[j];
        assert with[i][0] < without[j][0];
      }
      AppendInOrder(with, without);
    }
  }

  lemma AppendInOrder(a: seq<seq<int>>, b: seq<seq<int>>)
    requires InOrder(a) && InOrder(b)
    requires forall i, j :: 0 <= i < |a| && 0 <= j < |b| ==> Sooner(a[i], b[j])
    ensures InOrder(a + b)
  {
  }

  ghost predicate Precedes(c: Candidate, d: Candidate) { Sooner(c.s4, d.s4) || (c.s4 == d.s4 && Sooner(c.s2, d.s2)) }

  ghost predicate CandidatesInOrder(cs: seq<Candidate>) {
    forall i, j :: 0 <= i < j < |cs| ==> Precedes(cs[i], cs[j])
  }

  lemma {:induction false} CandidatesOfInOrder(a: seq<int>, survivors: seq<seq<int>>)
    requires InOrder(survivors) && forall s :: s in survivors ==> Increasing(s)
    ensures CandidatesInOrder(CandidatesOf(a, survivors))
  {
    if survivors != [] {
      var k := |survivors| - 1;
      var front, last := survivors[..k], survivors[k];
      CandidatesOfInOrder(a, front);
      CombinationsInOrder(last, 2);
      var before, pairs := CandidatesOf(a, front), Pairs(a, last, Combinations(last, 2));
      forall i, j | 0 <= i < |before| && 0 <= j < |pairs| ensures Precedes(before[i], pairs[j]) {
        InCandidatesOf(a, front, before[i]);
      }
      AppendCandidates(before, pairs);
    }
  }

  lemma AppendCandidates(a: seq<Candidate>, b: seq<Candidate>)
    requires CandidatesInOrder(a) && CandidatesInOrder(b)
    requires forall i, j :: 0 <= i < |a| && 0 <= j < |b| ==> Precedes(a[i], b[j])
    ensures CandidatesInOrder(a + b)
  {
  }

  lemma CandidatesSorted(a: seq<int>)
    requires Increasing(a)
    ensures CandidatesInOrder(Candidates(a))
  {
    CombinationsInOrder(a, Keep4(a));
    forall s | s in Combinations(a, Keep4(a)) ensures Increasing(s) {
      CombinationsAreSubsets(a, Keep4(a), s);
    }
    CandidatesOfInOrder(a, Combinations(a, Keep4(a)));
  }

  ghost predicate Renamed(f: int -> int, b: seq<int>, cs: seq<Candidate>, ds: seq<Candidate>) {
    && |ds| == |cs|
    && forall i :: 0 <= i < |ds| ==>
         && ds[i].s4 == Mapped(f, cs[i].s4) && ds[i].s2 == Mapped(f, cs[i].s2)
         && ds[i].work == Exposure(b, ds[i].s4, ds[i].s2)
  }

  lemma {:induction false} CandidatesMapped(f: int -> int, a: seq<int>, b: seq<int>, survivors: seq<seq<int>>)
    ensures Renamed(f, b, CandidatesOf(a, survivors), CandidatesOf(b, MappedAll(f, survivors)))
  {
    if survivors != [] {
      var k := |survivors| - 1;
      var mapped := MappedAll(f, survivors);
      assert mapped[..k] == MappedAll(f, survivors[..k]);
      CandidatesMapped(f, a, b, survivors[..k]);
      PairsMapped(f, a, b, survivors[k]);
      RenamedAppend(f, b, CandidatesOf(a, survivors[..k]), CandidatesOf(b, mapped[..k]),
                    Pairs(a, survivors[k], Combinations(survivors[k], 2)),
                    Pairs(b, mapped[k], Combinations(mapped[k], 2)));
    }
  }

  lemma PairsMapped(f: int -> int, a: seq<int>, b: seq<int>, s4: seq<int>)
    ensures Renamed(f, b, Pairs(a, s4, Combinations(s4, 2)), Pairs(b, Mapped(f, s4), Combinations(Mapped(f, s4), 2)))
  {
    CombinationsMapped(f, s4, 2);
  }

  lemma RenamedAppend(f: int -> int, b: seq<int>, cs: seq<Candidate>, ds: seq<Candidate>, cs': seq<Candidate>,
                      ds': seq<Candidate>)
    requires Renamed(f, b, cs, ds) && Renamed(f, b, cs', ds')
    ensures Renamed(f, b, cs + cs', ds + ds')
  {
  }

  /** For a ladder of any numbers the candidates are those of its positions, which come in order, each
      nested choice once; their work is that of the entries. */
  lemma CandidatesByPosition(a: seq<int>)
    ensures var places := Candidates(Positions(|a|));
            && Renamed(EntryOf(a), a, places, Candidates(a))
            && CandidatesInOrder(places)
            && forall c :: c in places <==> Nested(Positions(|a|), c)
  {
    var places := Positions(|a|);
    EntriesOfPositions(a);
    CombinationsMapped(EntryOf(a), places, Keep4(a));
    CandidatesMapped(EntryOf(a), places, a, Combinations(places, Keep4(a)));
    CandidatesSorted(places);
    forall c ensures c in Candidates(places) <==> Nested(places, c) {
      CandidatesAreNested(places, c);
    }
  }
}

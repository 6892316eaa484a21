/** Reachability along a successor function, used for the flood fill and for the process tree. */
module Reachability {

  /** `p` lists the vertices passed on the way from a to b, b itself not included. */
  ghost predicate IsPath<V>(next: V -> set<V>, a: V, p: seq<V>, b: V) {
    if p == [] then a == b
    else var last := |p| - 1; b in next(p[last]) && IsPath(next, a, p[..last], p[last])
  }

  ghost predicate Reaches<V(!new)>(next: V -> set<V>, a: V, b: V) {
    exists p :: IsPath(next, a, p, b)
  }

  ghost predicate Closed<V(!new)>(next: V -> set<V>, s: set<V>) {
    forall v :: v in s ==> next(v) <= s
  }

  lemma ReachesSelf<V(!new)>(next: V -> set<V>, a: V)
    ensures Reaches(next, a, a)
  {
    assert IsPath(next, a, [], a);
  }

  lemma ReachesStep<V(!new)>(next: V -> set<V>, a: V, b: V, c: V)
    requires Reaches(next, a, b) && c in next(b)
    ensures Reaches(next, a, c)
  {
    var p :| IsPath(next, a, p, b);
    assert (p + [b])[..|p|] == p;
    assert IsPath(next, a, p + [b], c);
  }

  lemma {:induction false} PathStaysInside<V(!new)>(next: V -> set<V>, a: V, p: seq<V>, b: V, s: set<V>)
    requires IsPath(next, a, p, b) && a in s && Closed(next, s)
    ensures b in s
  {
    if p != [] {
      PathStaysInside(next, a, p[..|p| - 1], p[|p| - 1], s);
    }
  }

  /** A closed set that contains a contains everything a reaches. */
  lemma StaysInside<V(!new)>(next: V -> set<V>, a: V, b: V, s: set<V>)
    requires Reaches(next, a, b) && a in s && Closed(next, s)
    ensures b in s
  {
    var p :| IsPath(next, a, p, b);
    PathStaysInside(next, a, p, b, s);
  }

  lemma {:induction false} PathTransitive<V(!new)>(next: V -> set<V>, a: V, b: V, p: seq<V>, c: V)
    requires Reaches(next, a, b) && IsPath(next, b, p, c)
    ensures Reaches(next, a, c)
  {
    if p != [] {
      PathTransitive(next, a, b, p[..|p| - 1], p[|p| - 1]);
      ReachesStep(next, a, p[|p| - 1], c);
    }
  }

  lemma ReachesTransitive<V(!new)>(next: V -> set<V>, a: V, b: V, c: V)
    requires Reaches(next, a, b) && Reaches(next, b, c)
    ensures Reaches(next, a, c)
  {
    var p :| IsPath(next, b, p, c);
    PathTransitive(next, a, b, p, c);
  }
}

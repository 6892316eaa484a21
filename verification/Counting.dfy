/** Cardinalities, and orders on finite sets. */
module Counting {

  lemma {:induction false} SubsetSize<T>(a: set<T>, b: set<T>)
    requires a <= b
    ensures |a| <= |b|
  {
    assert b == a + (b - a);
  }

  ghost function AnyOf<T>(s: set<T>): (x: T)
    requires s != {}
    ensures x in s
  {
    var x :| x in s; x
  }

  ghost function Image<A, B>(s: set<A>, f: A -> B): set<B> { set x | x in s :: f(x) }

  lemma {:induction false} ImageSize<A, B>(s: set<A>, f: A -> B)
    requires forall x, y :: x in s && y in s && f(x) == f(y) ==> x == y
    ensures |Image(s, f)| == |s|
    decreases |s|
  {
    if s != {} {
      var a :| a in s;
      var rest := s - {a};
      ImageSize(rest, f);
      assert f(a) !in Image(rest, f);
      assert Image(s, f) == Image(rest, f) + {f(a)};
    }
  }

  function UpTo(n: nat): (s: set<int>)
    ensures forall p :: p in s <==> 0 <= p < n
    ensures |s| == n
  {
    if n == 0 then {} else UpTo(n - 1) + {n - 1}
  }

  /** An injection into 0..n. */
  lemma BoundedByImage<A>(s: set<A>, f: A -> int, n: nat)
    requires forall x, y :: x in s && y in s && f(x) == f(y) ==> x == y
    requires forall x :: x in s ==> 0 <= f(x) < n
    ensures |s| <= n
  {
    ImageSize(s, f);
    SubsetSize(Image(s, f), UpTo(n));
  }

  lemma TailElements<T>(s: seq<T>)
    requires s != []
    ensures s[0] in s && forall x :: x in s <==> x == s[0] || x in s[1..]
  {
    assert s == [s[0]] + s[1..];
  }

  function Sum(s: seq<nat>): nat {
    if s == [] then 0 else s[0] + Sum(s[1..])
  }

  function Max(a: nat, b: nat): nat { if a < b then b else a }

  /** How often v occurs in s. */
  function Count<T(==)>(s: seq<T>, v: T): nat {
    if s == [] then 0 else (if s[0] == v then 1 else 0) + Count(s[1..], v)
  }

  lemma {:induction false} SumAppend(s: seq<nat>, v: nat)
    ensures Sum(s + [v]) == Sum(s) + v
  {
    if s != [] {
      assert (s + [v])[1..] == s[1..] + [v];
      SumAppend(s[1..], v);
    }
  }

  lemma {:induction false} CountPositive<T>(s: seq<T>, v: T)
    ensures Count(s, v) > 0 <==> v in s
  {
    if s != [] {
      CountPositive(s[1..], v);
    }
  }

  ghost function Elements<T>(s: seq<T>): set<T> { set x | x in s }

  ghost predicate Distinct<T>(s: seq<T>) {
    forall i, j :: 0 <= i < j < |s| ==> s[i] != s[j]
  }

  lemma ElementsWithoutLast<T>(s: seq<T>)
    requires s != [] && Distinct(s)
    ensures Elements(s[..|s| - 1]) == Elements(s) - {s[|s| - 1]} && s[|s| - 1] in Elements(s)
    ensures Distinct(s[..|s| - 1])
  {
  }

  lemma {:induction false} DistinctSize<T>(s: seq<T>)
    requires Distinct(s)
    ensures |Elements(s)| == |s|
  {
    if s != [] {
      ElementsWithoutLast(s);
      DistinctSize(s[..|s| - 1]);
    }
  }

  /** Two sequences that repeat at the same places. */
  ghost predicate SamePattern<A, B>(s: seq<A>, t: seq<B>) {
    |s| == |t| && forall i, j :: 0 <= i < |s| && 0 <= j < |s| ==> (s[i] == s[j] <==> t[i] == t[j])
  }

  lemma ElementsLast<T>(s: seq<T>)
    requires s != []
    ensures var k := |s| - 1; |Elements(s)| == |Elements(s[..k])| + if s[k] in s[..k] then 0 else 1
  {
    var k := |s| - 1;
    assert s == s[..k] + [s[k]];
    assert Elements(s) == if s[k] in s[..k] then Elements(s[..k]) else Elements(s[..k]) + {s[k]};
  }

  lemma SamePatternLast<A, B>(s: seq<A>, t: seq<B>, k: nat)
    requires SamePattern(s, t) && k < |s| && s[k] in s[..k]
    ensures t[k] in t[..k]
  {
    var j :| 0 <= j < k && s[..k][j] == s[k];
    assert t[..k][j] == t[k];
  }

  lemma {:induction false} SamePatternSize<A, B>(s: seq<A>, t: seq<B>)
    requires SamePattern(s, t)
    ensures |Elements(s)| == |Elements(t)|
  {
    if s == [] {
      assert Elements(s) == {} && Elements(t) == {};
    } else {
      var k := |s| - 1;
      SamePatternSize(s[..k], t[..k]);
      ElementsLast(s);
      ElementsLast(t);
      if s[k] in s[..k] {
        SamePatternLast(s, t, k);
      }
      if t[k] in t[..k] {
        SamePatternLast(t, s, k);
      }
    }
  }

  // ----- Sets in order

  ghost predicate TotalOrder<T(!new)>(le: (T, T) -> bool) {
    && (forall x, y :: le(x, y) || le(y, x))
    && (forall x, y :: le(x, y) && le(y, x) ==> x == y)
    && (forall x, y, z :: le(x, y) && le(y, z) ==> le(x, z))
  }

  ghost predicate Ascending<T>(le: (T, T) -> bool, s: seq<T>) {
    forall i, j :: 0 <= i < j < |s| ==> le(s[i], s[j]) && s[i] != s[j]
  }

  lemma {:induction false} LeastExists<T(!new)>(le: (T, T) -> bool, s: set<T>)
    requires TotalOrder(le) && s != {}
    ensures exists x :: x in s && forall y :: y in s ==> le(x, y)
    decreases |s|
  {
    var a :| a in s;
    var rest := s - {a};
    if rest == {} {
      assert s == {a};
    } else {
      LeastExists(le, rest);
      var b :| b in rest && forall y :: y in rest ==> le(b, y);
      if le(a, b) {
        assert forall y :: y in s ==> le(a, y);
      } else {
        assert forall y :: y in s ==> le(b, y);
      }
    }
  }

  /** The elements of a set in increasing order. */
  function Sorted<T(==, !new)>(le: (T, T) -> bool, s: set<T>): (r: seq<T>)
    requires TotalOrder(le)
    ensures Ascending(le, r)
    ensures |r| == |s| && forall x :: x in r <==> x in s
    decreases |s|
  {
    if s == {} then []
    else
      LeastExists(le, s);
      var x :| x in s && forall y :: y in s ==> le(x, y);
      [x] + Sorted(le, s - {x})
  }

  lemma BothEmpty<T>(a: seq<T>, b: seq<T>)
    requires forall x :: x in a <==> x in b
    ensures a == [] <==> b == []
  {
    if a != [] {
      assert a[0] in a;
    }
    if b != [] {
      assert b[0] in b;
    }
  }

  /** There is one increasing listing of a set. */
  lemma {:induction false} AscendingUnique<T(!new)>(le: (T, T) -> bool, a: seq<T>, b: seq<T>)
    requires TotalOrder(le) && Ascending(le, a) && Ascending(le, b)
    requires forall x :: x in a <==> x in b
    ensures a == b
  {
    BothEmpty(a, b);
    if a != [] {
      assert a[0] in a && a[0] in b;
      assert b[0] in b && b[0] in a;
      assert a[0] == b[0];
      forall x ensures x in a[1..] <==> x in b[1..] {
        if x in a[1..] {
          assert x in a && x != a[0];
        }
        if x in b[1..] {
          assert x in b && x != b[0];
        }
      }
      AscendingUnique(le, a[1..], b[1..]);
      assert a == [a[0]] + a[1..] && b == [b[0]] + b[1..];
    }
  }

  predicate AtMostInt(a: int, b: int) { a <= b }

  lemma IntsOrdered()
    ensures TotalOrder(AtMostInt)
  {
  }

  /** A set of integers in increasing order. */
  function SortedInts(s: set<int>): (r: seq<int>)
    ensures Ascending(AtMostInt, r) && |r| == |s| && forall x :: x in r <==> x in s
  {
    IntsOrdered();
    Sorted(AtMostInt, s)
  }
}

/** Vertex reconciliation (mesh_reconcile_benchmark of
    benchmarks/interpreter_hotpath_stage2_benchmark.py): ids in order of first occurrence, against
    ids in sorted order. */
module Reconcile {
  import opened Counting

  /** `ids` numbers the rows so that equal rows and only they share an id, new ids being handed out
      as 0, 1, 2, ... */
  ghost predicate FirstOccurrence<K>(keys: seq<K>, ids: seq<nat>) {
    SamePattern(keys, ids) && Growing(ids)
  }

  /** Every id has appeared before or is the next unused one. */
  ghost predicate Growing(ids: seq<nat>) {
    forall i :: 0 <= i < |ids| ==> ids[i] <= Used(ids[..i])
  }

  /** One more than the largest id. */
  function Used(ids: seq<nat>): nat {
    if ids == [] then 0
    else
      var u, last := Used(ids[..|ids| - 1]), ids[|ids| - 1];
      if last < u then u else last + 1
  }

  lemma GrowingFront(ids: seq<nat>)
    requires Growing(ids) && ids != []
    ensures Growing(ids[..|ids| - 1])
  {
    var front := ids[..|ids| - 1];
    forall i | 0 <= i < |front| ensures front[i] <= Used(front[..i]) {
      assert front[..i] == ids[..i];
    }
  }

  lemma {:induction false} BelowUsed(ids: seq<nat>)
    ensures forall v :: v in ids ==> v < Used(ids)
  {
    if ids != [] {
      var k := |ids| - 1;
      BelowUsed(ids[..k]);
      assert ids == ids[..k] + [ids[k]];
    }
  }

  lemma {:induction false} UsedAppears(ids: seq<nat>, v: nat)
    requires Growing(ids) && v < Used(ids)
    ensures v in ids
  {
    var k := |ids| - 1;
    if v != ids[k] {
      GrowingFront(ids);
      assert ids[k] <= Used(ids[..k]);
      UsedAppears(ids[..k], v);
      assert ids == ids[..k] + [ids[k]];
    }
  }

  lemma UsedCovers(ids: seq<nat>)
    requires Growing(ids)
    ensures forall v: nat :: v in ids <==> v < Used(ids)
  {
    BelowUsed(ids);
    forall v: nat | v < Used(ids) ensures v in ids {
      UsedAppears(ids, v);
    }
  }

  /** The ids in use are 0..k-1 for the number k of distinct rows. */
  lemma IdsAreDense<K>(keys: seq<K>, ids: seq<nat>)
    requires FirstOccurrence(keys, ids)
    ensures Used(ids) == |Elements(keys)|
    ensures forall v: nat :: v in ids <==> v < Used(ids)
  {
    UsedCovers(ids);
    SamePatternSize(keys, ids);
    var small := set v: nat | v in ids;
    assert Elements(ids) == small;
    NatsBelow(Elements(ids), Used(ids));
  }

  lemma {:induction false} NatsBelow(s: set<nat>, n: nat)
    requires forall v: nat :: v in s <==> v < n
    ensures |s| == n
  {
    if n == 0 {
      assert s == {};
    } else {
      NatsBelow(s - {n - 1}, n - 1);
    }
  }

  /** There is only one numbering in order of first occurrence. */
  lemma {:induction false} NumberingUnique<K>(keys: seq<K>, ids: seq<nat>, other: seq<nat>)
    requires FirstOccurrence(keys, ids) && FirstOccurrence(keys, other)
    ensures ids == other
  {
    if keys != [] {
      var k := |keys| - 1;
      assert ids[..k] == other[..k] by {
        FrontFirstOccurrence(keys, ids);
        FrontFirstOccurrence(keys, other);
        NumberingUnique(keys[..k], ids[..k], other[..k]);
      }
      LastIdUnique(keys, ids, other);
      SameFrontAndLast(ids, other);
    }
  }

  lemma SameFrontAndLast(a: seq<nat>, b: seq<nat>)
    requires |a| == |b| > 0 && a[..|a| - 1] == b[..|b| - 1] && a[|a| - 1] == b[|b| - 1]
    ensures a == b
  {
    assert a == a[..|a| - 1] + [a[|a| - 1]] && b == b[..|b| - 1] + [b[|b| - 1]];
  }

  lemma LastIdUnique<K>(keys: seq<K>, ids: seq<nat>, other: seq<nat>)
    requires FirstOccurrence(keys, ids) && FirstOccurrence(keys, other) && keys != []
    requires ids[..|keys| - 1] == other[..|keys| - 1]
    ensures ids[|keys| - 1] == other[|keys| - 1]
  {
    var k := |keys| - 1;
    if keys[k] in keys[..k] {
      var j :| 0 <= j < k && keys[..k][j] == keys[k];
      assert ids[j] == ids[..k][j] == other[..k][j] == other[j];
    } else {
      NewIdIsNext(keys, ids);
      NewIdIsNext(keys, other);
    }
  }

  lemma FrontFirstOccurrence<K>(keys: seq<K>, ids: seq<nat>)
    requires FirstOccurrence(keys, ids) && keys != []
    ensures FirstOccurrence(keys[..|keys| - 1], ids[..|ids| - 1])
  {
    GrowingFront(ids);
  }

  lemma NewIdIsNext<K>(keys: seq<K>, ids: seq<nat>)
    requires FirstOccurrence(keys, ids) && keys != []
    requires keys[|keys| - 1] !in keys[..|keys| - 1]
    ensures ids[|ids| - 1] == Used(ids[..|ids| - 1])
  {
    var k := |ids| - 1;
    FrontFirstOccurrence(keys, ids);
    UsedCovers(ids[..k]);
    assert ids[k] !in ids[..k] by {
      forall j | 0 <= j < k ensures ids[..k][j] != ids[k] {
        assert keys[..k][j] != keys[k];
      }
    }
  }

  // ----- The loop over the rows

  /** `mapping` gives each row seen so far its id, and different rows different ids. */
  ghost predicate Maps<K(!new)>(keys: seq<K>, mapping: map<K, nat>, ids: seq<nat>) {
    && |ids| == |keys|
    && (forall key :: key in mapping <==> key in keys)
    && (forall i :: 0 <= i < |keys| ==> keys[i] in mapping && ids[i] == mapping[keys[i]])
    && (forall a, b :: a in mapping && b in mapping && mapping[a] == mapping[b] ==> a == b)
    && (forall a :: a in mapping ==> mapping[a] < |mapping|)
  }

  lemma GrowingOneMore(ids: seq<nat>, id: nat)
    requires Growing(ids) && id <= Used(ids)
    ensures Growing(ids + [id])
    ensures Used(ids + [id]) == if id < Used(ids) then Used(ids) else id + 1
  {
    var more := ids + [id];
    assert more[..|ids|] == ids;
    forall i | 0 <= i < |more| ensures more[i] <= Used(more[..i]) {
      assert i < |ids| ==> more[..i] == ids[..i];
    }
  }

  lemma KnownRow<K(!new)>(keys: seq<K>, mapping: map<K, nat>, ids: seq<nat>, key: K)
    requires Maps(keys, mapping, ids) && key in mapping
    ensures Maps(keys + [key], mapping, ids + [mapping[key]])
  {
    forall k ensures k in mapping <==> k in keys + [key] {
    }
  }

  lemma NewRow<K(!new)>(keys: seq<K>, mapping: map<K, nat>, ids: seq<nat>, key: K)
    requires Maps(keys, mapping, ids) && key !in mapping
    ensures Maps(keys + [key], mapping[key := |mapping|], ids + [|mapping|])
  {
    var more := mapping[key := |mapping|];
    assert |more| == |mapping| + 1 by {
      assert more.Keys == mapping.Keys + {key};
    }
    forall i | 0 <= i < |keys| + 1
      ensures (keys + [key])[i] in more && (ids + [|mapping|])[i] == more[(keys + [key])[i]]
    {
      if i < |keys| {
        assert keys[i] in mapping;
      }
    }
  }

  lemma MapsIsPattern<K(!new)>(keys: seq<K>, mapping: map<K, nat>, ids: seq<nat>)
    requires Maps(keys, mapping, ids)
    ensures SamePattern(keys, ids)
  {
    forall i, j | 0 <= i < |keys| && 0 <= j < |keys| ensures keys[i] == keys[j] <==> ids[i] == ids[j] {
      assert keys[i] in mapping && keys[j] in mapping;
    }
  }

  /** The dictionary after the rows `keys`, and the ids they received. */
  ghost function MappingAfter<K>(keys: seq<K>): map<K, nat> {
    if keys == [] then map[]
    else
      var m, key := MappingAfter(keys[..|keys| - 1]), keys[|keys| - 1];
      if key in m then m else m[key := |m|]
  }

  ghost function IdsOf<K>(keys: seq<K>): seq<nat> {
    if keys == [] then []
    else IdsOf(keys[..|keys| - 1]) + [MappingAfter(keys)[keys[|keys| - 1]]]
  }

  lemma {:induction false} IdsMapped<K(!new)>(keys: seq<K>)
    ensures Maps(keys, MappingAfter(keys), IdsOf(keys))
  {
    if keys != [] {
      var front, key := keys[..|keys| - 1], keys[|keys| - 1];
      IdsMapped(front);
      assert keys == front + [key];
      if key in MappingAfter(front) {
        KnownRow(front, MappingAfter(front), IdsOf(front), key);
      } else {
        NewRow(front, MappingAfter(front), IdsOf(front), key);
      }
    }
  }

  lemma {:induction false} IdsGrow<K(!new)>(keys: seq<K>)
    ensures Growing(IdsOf(keys)) && |MappingAfter(keys)| == Used(IdsOf(keys))
  {
    if keys != [] {
      var front, key := keys[..|keys| - 1], keys[|keys| - 1];
      var m := MappingAfter(front);
      IdsGrow(front);
      IdsMapped(front);
      if key in m {
        GrowingOneMore(IdsOf(front), m[key]);
      } else {
        assert MappingAfter(keys).Keys == m.Keys + {key};
        GrowingOneMore(IdsOf(front), |m|);
      }
    }
  }

  lemma NumberedIsFirstOccurrence<K(!new)>(keys: seq<K>)
    ensures FirstOccurrence(keys, IdsOf(keys)) && |MappingAfter(keys)| == |Elements(keys)|
  {
    IdsMapped(keys);
    IdsGrow(keys);
    MapsIsPattern(keys, MappingAfter(keys), IdsOf(keys));
    IdsAreDense(keys, IdsOf(keys));
  }

  /** old(): ids through a dictionary, in the order of the rows. */
  method Old<K(==, !new)>(keys: seq<K>) returns (count: nat, inverse: array<nat>)
    ensures fresh(inverse) && FirstOccurrence(keys, inverse[..]) && count == |Elements(keys)|
  {
    var mapping: map<K, nat> := map[];
    inverse := new nat[|keys|](_ => 0);
    for i := 0 to |keys|
      invariant mapping == MappingAfter(keys[..i]) && inverse[..i] == IdsOf(keys[..i])
    {
      var key := keys[i];
      assert keys[..i + 1][..i] == keys[..i];
      var idx;
      if key in mapping {
        idx := mapping[key];
      } else {
        idx := |mapping|;
        mapping := mapping[key := idx];
      }
      inverse[i] := idx;
    }
    assert keys[..|keys|] == keys && inverse[..] == inverse[..|keys|];
    NumberedIsFirstOccurrence(keys);
    count := |mapping|;
  }

  // ----- The sorted version

  function IndexIn<K(==)>(s: seq<K>, key: K): (i: nat)
    requires key in s
    ensures i < |s| && s[i] == key
  {
    if s[0] == key then 0 else 1 + IndexIn(s[1..], key)
  }

  /** The array version: an id is the rank of the row among the sorted distinct rows. */
  function SortedIds<K(==, !new)>(le: (K, K) -> bool, keys: seq<K>): (ids: seq<nat>)
    requires TotalOrder(le)
    ensures |ids| == |keys|
  {
    var unique := Sorted(le, set k | k in keys);
    seq(|keys|, i requires 0 <= i < |keys| => assert keys[i] in unique; IndexIn(unique, keys[i]))
  }

  /** `ids` are the positions of the keys in `unique`. */
  ghost predicate Positions<K>(unique: seq<K>, keys: seq<K>, ids: seq<nat>) {
    && |ids| == |keys|
    && forall i :: 0 <= i < |keys| ==> ids[i] < |unique| && unique[ids[i]] == keys[i]
  }

  lemma PositionsPattern<K>(unique: seq<K>, keys: seq<K>, ids: seq<nat>)
    requires Distinct(unique) && Positions(unique, keys, ids)
    ensures SamePattern(keys, ids)
  {
  }

  lemma PositionsDense<K>(unique: seq<K>, keys: seq<K>, ids: seq<nat>)
    requires Distinct(unique) && Positions(unique, keys, ids)
    requires forall k :: k in unique ==> k in keys
    ensures forall v: nat :: v in ids <==> v < |unique|
  {
    forall v: nat | v < |unique| ensures v in ids {
      assert unique[v] in keys;
      var i :| 0 <= i < |keys| && keys[i] == unique[v];
      assert unique[ids[i]] == unique[v];
      assert ids[i] == v;
    }
  }

  lemma SortedIdsPattern<K(!new)>(le: (K, K) -> bool, keys: seq<K>)
    requires TotalOrder(le)
    ensures SamePattern(keys, SortedIds(le, keys))
    ensures forall v: nat :: v in SortedIds(le, keys) <==> v < |Elements(keys)|
  {
    var unique, ids := Sorted(le, set k | k in keys), SortedIds(le, keys);
    assert (set k | k in keys) == Elements(keys);
    assert Positions(unique, keys, ids);
    assert Distinct(unique);
    PositionsPattern(unique, keys, ids);
    PositionsDense(unique, keys, ids);
  }

  /** `m` renames the ids one to one. */
  ghost predicate Relabels(m: map<nat, nat>, ids: seq<nat>, other: seq<nat>) {
    && |ids| == |other| && m.Keys == Elements(ids)
    && (forall i :: 0 <= i < |ids| ==> ids[i] in m && m[ids[i]] == other[i])
    && (forall a, b :: a in m && b in m && m[a] == m[b] ==> a == b)
  }

  function Renaming(ids: seq<nat>, other: seq<nat>): map<nat, nat>
    requires |ids| == |other|
  {
    map v | v in ids :: other[IndexIn(ids, v)]
  }

  lemma PatternsRelabel(ids: seq<nat>, other: seq<nat>)
    requires SamePattern(ids, other)
    ensures Relabels(Renaming(ids, other), ids, other)
  {
  }

  /** Both versions find the same number of vertices and the same identifications: the ids of one are
      those of the other under a one-to-one renaming of 0..k-1. */
  lemma OldMatchesNew<K(!new)>(le: (K, K) -> bool, keys: seq<K>, ids: seq<nat>)
    requires TotalOrder(le) && FirstOccurrence(keys, ids)
    ensures var m := Renaming(ids, SortedIds(le, keys));
            Relabels(m, ids, SortedIds(le, keys))
            && (forall v: nat :: v in m.Keys <==> v < |Elements(keys)|)
            && (forall v: nat :: v in SortedIds(le, keys) <==> v < |Elements(keys)|)
  {
    SortedIdsPattern(le, keys);
    IdsAreDense(keys, ids);
    PatternsRelabel(ids, SortedIds(le, keys));
  }
}

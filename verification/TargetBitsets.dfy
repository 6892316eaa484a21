/** Packing wrapped coordinates into one bit set per storage block
    (old_target_bitsets of benchmarks/interpreter_hotpath_stage2_benchmark.py). */
module TargetBitsets {
  import opened Bits
  import opened Counting
  import opened Grid

  const WORD_BITS: nat := 64

  /** `blockGrid` is the number of blocks along each axis. */
  datatype Routing = Routing(block: Shape, logical: Shape, blockGrid: Shape, blockWordCount: nat) {
    ghost predicate Valid() {
      block.Positive() && logical.Positive() && blockGrid == BlockGrid(logical, block)
    }
  }

  // ----- Where a coordinate goes

  function Wrap(v: int, size: nat): int
    requires size > 0
  {
    v % size
  }

  /** The brick coordinate on the periodic logical grid. */
  function GlobalOf(r: Routing, source: Cell, minimum: Cell, c: Cell): Cell
    requires r.Valid()
  {
    Cell(Wrap(source.x * r.block.x + c.x + minimum.x, r.logical.x),
         Wrap(source.y * r.block.y + c.y + minimum.y, r.logical.y),
         Wrap(source.z * r.block.z + c.z + minimum.z, r.logical.z))
  }

  /** a and b differ by whole turns of an axis of the given size. */
  ghost predicate SameTurn(a: int, b: int, size: nat) { exists k: int :: a - b == k * size }

  lemma WrapTurns(v: int, size: nat, w: int)
    requires size > 0
    ensures w == Wrap(v, size) <==> 0 <= w < size && SameTurn(v, w, size)
  {
    assert v == v / size * size + v % size;
    assert SameTurn(v, v % size, size) by { assert v - v % size == v / size * size; }
    if 0 <= w < size && SameTurn(v, w, size) {
      var k :| v - w == k * size;
      DivModUnique(v, size, k, w);
    }
  }

  /** The cell of the logical grid that lies whole turns away from the source block's corner moved by
      the brick coordinate and the signed minimum, axis by axis. */
  lemma GlobalIs(r: Routing, source: Cell, minimum: Cell, c: Cell, g: Cell)
    requires r.Valid()
    ensures g == GlobalOf(r, source, minimum, c) <==>
              && Inside(r.logical, g)
              && SameTurn(source.x * r.block.x + c.x + minimum.x, g.x, r.logical.x)
              && SameTurn(source.y * r.block.y + c.y + minimum.y, g.y, r.logical.y)
              && SameTurn(source.z * r.block.z + c.z + minimum.z, g.z, r.logical.z)
  {
    WrapTurns(source.x * r.block.x + c.x + minimum.x, r.logical.x, g.x);
    WrapTurns(source.y * r.block.y + c.y + minimum.y, r.logical.y, g.y);
    WrapTurns(source.z * r.block.z + c.z + minimum.z, r.logical.z, g.z);
  }

  datatype Target = Target(block: int, local: int)

  /** Block number and number within the block of a cell of the logical grid. */
  function TargetOf(r: Routing, g: Cell): Target
    requires r.Valid()
  {
    Target(Ravel(r.blockGrid, BlockOf(r.block, g)), Ravel(r.block, LocalOf(r.block, g)))
  }

  lemma TargetInRange(r: Routing, g: Cell)
    requires r.Valid() && Inside(r.logical, g)
    ensures 0 <= TargetOf(r, g).block < r.blockGrid.Volume() && 0 <= TargetOf(r, g).local < r.block.Volume()
  {
    BlockInside(r.logical, r.block, g);
    LocalInside(r.block, g);
    UnravelRavel(r.blockGrid, BlockOf(r.block, g));
    UnravelRavel(r.block, LocalOf(r.block, g));
  }

  /** Block and local number together identify the cell. */
  lemma TargetInjective(r: Routing, g: Cell, h: Cell)
    requires r.Valid() && Inside(r.logical, g) && Inside(r.logical, h) && TargetOf(r, g) == TargetOf(r, h)
    ensures g == h
  {
    BlockInside(r.logical, r.block, g);
    BlockInside(r.logical, r.block, h);
    LocalInside(r.block, g);
    LocalInside(r.block, h);
    UnravelRavel(r.blockGrid, BlockOf(r.block, g));
    UnravelRavel(r.blockGrid, BlockOf(r.block, h));
    UnravelRavel(r.block, LocalOf(r.block, g));
    UnravelRavel(r.block, LocalOf(r.block, h));
    BlockAndLocal(r.block, g, h);
  }

  /** The cell read back from its block and local number. */
  lemma TargetReadBack(r: Routing, g: Cell)
    requires r.Valid() && Inside(r.logical, g)
    ensures var t := TargetOf(r, g);
            && 0 <= t.block < r.blockGrid.Volume() && 0 <= t.local < r.block.Volume()
            && var b, l := Unravel(r.blockGrid, t.block), Unravel(r.block, t.local);
               g == Cell(b.x * r.block.x + l.x, b.y * r.block.y + l.y, b.z * r.block.z + l.z)
  {
    TargetInRange(r, g);
    BlockInside(r.logical, r.block, g);
    BlockCorner(r.block, g);
    UnravelRavel(r.blockGrid, BlockOf(r.block, g));
    UnravelRavel(r.block, LocalOf(r.block, g));
  }

  /** Without a minimum, a brick's own cells stay in the source block, each at its own place. */
  lemma OwnCells(r: Routing, source: Cell, c: Cell)
    requires r.Valid() && Inside(r.block, c)
    requires Inside(r.logical, Cell(source.x * r.block.x + c.x, source.y * r.block.y + c.y, source.z * r.block.z + c.z))
    ensures TargetOf(r, GlobalOf(r, source, Cell(0, 0, 0), c)) == Target(Ravel(r.blockGrid, source), Ravel(r.block, c))
  {
    var g := Cell(source.x * r.block.x + c.x, source.y * r.block.y + c.y, source.z * r.block.z + c.z);
    assert SameTurn(g.x, g.x, r.logical.x) by { assert g.x - g.x == 0 * r.logical.x; }
    assert SameTurn(g.y, g.y, r.logical.y) by { assert g.y - g.y == 0 * r.logical.y; }
    assert SameTurn(g.z, g.z, r.logical.z) by { assert g.z - g.z == 0 * r.logical.z; }
    GlobalIs(r, source, Cell(0, 0, 0), c, g);
    DivModUnique(g.x, r.block.x, source.x, c.x);
    DivModUnique(g.y, r.block.y, source.y, c.y);
    DivModUnique(g.z, r.block.z, source.z, c.z);
  }

  function Globals(r: Routing, source: Cell, minimum: Cell, coordinates: seq<Cell>): (gs: seq<Cell>)
    requires r.Valid()
    ensures |gs| == |coordinates| && forall i :: 0 <= i < |gs| ==> Inside(r.logical, gs[i])
  {
    seq(|coordinates|, i requires 0 <= i < |coordinates| => GlobalOf(r, source, minimum, coordinates[i]))
  }

  function TargetsOf(r: Routing, gs: seq<Cell>): seq<Target>
    requires r.Valid()
  {
    seq(|gs|, i requires 0 <= i < |gs| => TargetOf(r, gs[i]))
  }

  predicate AllNonNegative(targets: seq<Target>) {
    forall i :: 0 <= i < |targets| ==> targets[i].block >= 0 && targets[i].local >= 0
  }

  lemma TargetsInRange(r: Routing, gs: seq<Cell>)
    requires r.Valid() && forall i :: 0 <= i < |gs| ==> Inside(r.logical, gs[i])
    ensures AllNonNegative(TargetsOf(r, gs))
  {
    forall i | 0 <= i < |gs| ensures TargetOf(r, gs[i]).block >= 0 && TargetOf(r, gs[i]).local >= 0 {
      TargetInRange(r, gs[i]);
    }
  }

  // ----- Masks

  /** The blocks and their masks after all targets: each sets the bit of its place in the mask of its block. */
  function Masks(targets: seq<Target>): map<int, nat>
    requires AllNonNegative(targets)
  {
    if targets == [] then map[]
    else
      var last := |targets| - 1;
      var m := Masks(targets[..last]);
      var t := targets[last];
      m[t.block := Or(if t.block in m then m[t.block] else 0, Pow2(t.local))]
  }

  function BlocksOf(targets: seq<Target>): set<int> { set i | 0 <= i < |targets| :: targets[i].block }

  lemma {:induction false} MaskKeys(targets: seq<Target>)
    requires AllNonNegative(targets)
    ensures Masks(targets).Keys == BlocksOf(targets)
  {
    if targets != [] {
      var last := |targets| - 1;
      MaskKeys(targets[..last]);
      assert targets == targets[..last] + [targets[last]];
      forall b ensures b in BlocksOf(targets) <==> b in BlocksOf(targets[..last]) || b == targets[last].block {
        if b in BlocksOf(targets[..last]) {
          var i :| 0 <= i < last && targets[..last][i].block == b;
          assert targets[i].block == b;
        }
        if b in BlocksOf(targets) {
          var i :| 0 <= i < |targets| && targets[i].block == b;
          assert i < last ==> targets[..last][i].block == b;
        }
      }
    }
  }

  /** A bit of a mask is set exactly when some coordinate went to that place of that block. */
  lemma {:induction false} MaskBit(targets: seq<Target>, b: int, l: nat)
    requires AllNonNegative(targets)
    ensures (b in Masks(targets) && Bit(Masks(targets)[b], l)) <==> Target(b, l) in targets
  {
    if targets != [] {
      var last := |targets| - 1;
      var m, t := Masks(targets[..last]), targets[last];
      MaskBit(targets[..last], b, l);
      assert targets == targets[..last] + [t];
      if b == t.block {
        OrBit(if b in m then m[b] else 0, Pow2(t.local), l);
        Pow2Bit(t.local, l);
        ZeroBit(l);
      }
    }
  }

  // ----- The function

  predicate AllIn(blocks: seq<int>, masks: map<int, nat>) {
    forall i :: 0 <= i < |blocks| ==> blocks[i] in masks
  }

  /** Row i holds the words of the mask of block flats[i]. */
  ghost predicate RowsFilled(words: array2<nat>, rows: nat, flats: seq<int>, masks: map<int, nat>)
    reads words
    requires rows <= words.Length0 == |flats|
    requires AllIn(flats, masks)
  {
    forall i, w :: 0 <= i < rows && 0 <= w < words.Length1 ==> words[i, w] == Word(masks[flats[i]], WORD_BITS, w)
  }

  lemma SortedIn(masks: map<int, nat>)
    ensures AllIn(SortedInts(masks.Keys), masks)
  {
    var keys := SortedInts(masks.Keys);
    forall i | 0 <= i < |keys| ensures keys[i] in masks {
      assert keys[i] in keys;
    }
  }

  method GroupTargets(targets: seq<Target>) returns (grouped: map<int, nat>)
    requires AllNonNegative(targets)
    ensures grouped == Masks(targets)
  {
    grouped := map[];
    for i := 0 to |targets|
      invariant grouped == Masks(targets[..i])
    {
      assert targets[..i + 1][..i] == targets[..i];
      var t := targets[i];
      grouped := grouped[t.block := Or(if t.block in grouped then grouped[t.block] else 0, Pow2(t.local))];
    }
    assert targets[..|targets|] == targets;
  }

  method FillWords(flats: seq<int>, grouped: map<int, nat>, count: nat) returns (words: array2<nat>)
    requires AllIn(flats, grouped)
    ensures fresh(words) && words.Length0 == |flats| && words.Length1 == count
    ensures RowsFilled(words, |flats|, flats, grouped)
  {
    words := new nat[|flats|, count]((i, j) => 0);
    for row := 0 to |flats|
      invariant RowsFilled(words, row, flats, grouped)
    {
      var value := grouped[flats[row]];
      for word := 0 to count
        invariant RowsFilled(words, row, flats, grouped)
        invariant forall w :: 0 <= w < word ==> words[row, w] == Word(value, WORD_BITS, w)
      {
        words[row, word] := Word(value, WORD_BITS, word);
      }
    }
  }

  /** old_target_bitsets. */
  method OldTargetBitsets(coordinates: seq<Cell>, source: Cell, r: Routing, minimum: Cell)
    returns (flats: seq<int>, words: array2<nat>)
    requires r.Valid()
    ensures var targets := TargetsOf(r, Globals(r, source, minimum, coordinates));
            && AllNonNegative(targets)
            && flats == SortedInts(BlocksOf(targets))
            && AllIn(flats, Masks(targets))
            && fresh(words) && words.Length0 == |flats| && words.Length1 == r.blockWordCount
            && RowsFilled(words, |flats|, flats, Masks(targets))
  {
    var globals := Globals(r, source, minimum, coordinates);
    var targets := TargetsOf(r, globals);
    TargetsInRange(r, globals);
    MaskKeys(targets);
    var grouped := GroupTargets(targets);
    flats := SortedInts(grouped.Keys);
    SortedIn(grouped);
    words := FillWords(flats, grouped, r.blockWordCount);
  }

  // ----- What the words mean

  /** Bit l % 64 of word l / 64 in the row of block b is set exactly when some coordinate wraps to
      place l of block b. */
  lemma BitMeaning(targets: seq<Target>, b: int, l: nat)
    requires AllNonNegative(targets) && b in BlocksOf(targets)
    ensures b in Masks(targets)
    ensures Bit(Word(Masks(targets)[b], WORD_BITS, l / WORD_BITS), l % WORD_BITS) <==> Target(b, l) in targets
  {
    MaskKeys(targets);
    WordBit(Masks(targets)[b], WORD_BITS, l);
    MaskBit(targets, b, l);
  }

  lemma {:induction false} Pow2Monotone(a: nat, b: nat)
    requires a <= b
    ensures Pow2(a) <= Pow2(b)
  {
    if a > 0 {
      Pow2Monotone(a - 1, b - 1);
    }
  }

  /** A mask has no bit beyond the block volume. */
  lemma MaskBound(targets: seq<Target>, b: int, volume: nat)
    requires AllNonNegative(targets) && b in Masks(targets)
    requires forall i :: 0 <= i < |targets| ==> targets[i].local < volume
    ensures Masks(targets)[b] < Pow2(volume)
  {
    var v := Masks(targets)[b];
    forall l: nat | Bit(v, l) ensures l < volume {
      MaskBit(targets, b, l);
      var i :| 0 <= i < |targets| && targets[i] == Target(b, l);
    }
    BoundFromBits(v, volume);
  }

  /** When the words of a row have room for a block, they join to the grouped integer again. */
  lemma RowsReassemble(r: Routing, gs: seq<Cell>, b: int)
    requires r.Valid() && forall i :: 0 <= i < |gs| ==> Inside(r.logical, gs[i])
    requires r.block.Volume() <= WORD_BITS * r.blockWordCount
    ensures AllNonNegative(TargetsOf(r, gs))
    ensures b in Masks(TargetsOf(r, gs)) ==>
              var v := Masks(TargetsOf(r, gs))[b];
              && v < Pow2(WORD_BITS * r.blockWordCount)
              && Reassemble(WORD_BITS, Words(v, WORD_BITS, r.blockWordCount)) == v
  {
    var targets := TargetsOf(r, gs);
    TargetsInRange(r, gs);
    if b in Masks(targets) {
      forall i | 0 <= i < |targets| ensures targets[i].local < r.block.Volume() {
        TargetInRange(r, gs[i]);
      }
      MaskBound(targets, b, r.block.Volume());
      Pow2Monotone(r.block.Volume(), WORD_BITS * r.blockWordCount);
      ReassembleIff(Masks(targets)[b], WORD_BITS, r.blockWordCount);
    }
  }

  // ----- Conservation

  /** The places of block b that were hit. */
  function Places(hit: set<Target>, b: int): set<int> { set t | t in hit && t.block == b :: t.local }

  function Within(hit: set<Target>, blocks: seq<int>): set<Target> { set t | t in hit && t.block in blocks }

  function SumPlaces(hit: set<Target>, blocks: seq<int>): nat {
    if blocks == [] then 0 else |Places(hit, blocks[0])| + SumPlaces(hit, blocks[1..])
  }

  lemma {:induction false} PlacesPartition(hit: set<Target>, blocks: seq<int>)
    requires Distinct(blocks)
    ensures SumPlaces(hit, blocks) == |Within(hit, blocks)|
  {
    if blocks == [] {
      assert Within(hit, blocks) == {};
    } else {
      var b, rest := blocks[0], blocks[1..];
      PlacesPartition(hit, rest);
      TailElements(blocks);
      PlacesInjected(hit, b);
      assert Within(hit, blocks) == Within(hit, rest) + Within(hit, [b]);
      assert Within(hit, rest) !! Within(hit, [b]);
    }
  }

  lemma PlacesInjected(hit: set<Target>, b: int)
    ensures |Places(hit, b)| == |Within(hit, [b])|
  {
    var f := (t: Target) => t.local;
    ImageSize(Within(hit, [b]), f);
    forall l ensures l in Image(Within(hit, [b]), f) <==> l in Places(hit, b) {
      if l in Places(hit, b) {
        var t :| t in hit && t.block == b && t.local == l;
        assert t in Within(hit, [b]) && f(t) == l;
      }
      if l in Image(Within(hit, [b]), f) {
        var t :| t in Within(hit, [b]) && f(t) == l;
      }
    }
    assert Image(Within(hit, [b]), f) == Places(hit, b);
  }

  function SumRows(masks: map<int, nat>, blocks: seq<int>, count: nat): nat
    requires AllIn(blocks, masks)
  {
    if blocks == [] then 0
    else
      SumPopCounts(Words(masks[blocks[0]], WORD_BITS, count)) + SumRows(masks, blocks[1..], count)
  }

  lemma RowPopCount(targets: seq<Target>, b: int, count: nat)
    requires AllNonNegative(targets) && b in Masks(targets) && Masks(targets)[b] < Pow2(WORD_BITS * count)
    ensures SumPopCounts(Words(Masks(targets)[b], WORD_BITS, count)) == |Places(Elements(targets), b)|
  {
    var v, n := Masks(targets)[b], WORD_BITS * count;
    WordsPopCount(v, WORD_BITS, count);
    PopCountIsBits(v, n);
    forall l ensures l in BitSet(v, n) <==> l in Places(Elements(targets), b) {
      if l >= 0 {
        MaskBit(targets, b, l);
        if l >= n {
          BitSetEmptyAbove(v, n, l);
        }
        assert Target(b, l) in targets ==> Target(b, l) in Elements(targets) && Target(b, l).local == l;
      }
    }
    assert BitSet(v, n) == Places(Elements(targets), b);
  }

  lemma {:induction false} RowsPopCount(targets: seq<Target>, blocks: seq<int>, count: nat)
    requires AllNonNegative(targets) && AllIn(blocks, Masks(targets))
    requires forall b :: b in Masks(targets) ==> Masks(targets)[b] < Pow2(WORD_BITS * count)
    ensures SumRows(Masks(targets), blocks, count) == SumPlaces(Elements(targets), blocks)
  {
    if blocks != [] {
      RowPopCount(targets, blocks[0], count);
      RowsPopCount(targets, blocks[1..], count);
    }
  }

  lemma TargetsDistinct(r: Routing, gs: seq<Cell>)
    requires r.Valid() && forall i :: 0 <= i < |gs| ==> Inside(r.logical, gs[i])
    ensures |Elements(TargetsOf(r, gs))| == |Elements(gs)|
  {
    var targets := TargetsOf(r, gs);
    forall i, j | 0 <= i < |gs| && 0 <= j < |gs| ensures gs[i] == gs[j] <==> targets[i] == targets[j] {
      if targets[i] == targets[j] {
        TargetInjective(r, gs[i], gs[j]);
      }
    }
    SamePatternSize(gs, targets);
  }

  lemma AllWithin(targets: seq<Target>)
    ensures Within(Elements(targets), SortedInts(BlocksOf(targets))) == Elements(targets)
  {
    var flats := SortedInts(BlocksOf(targets));
    forall t | t in Elements(targets) ensures t.block in flats {
      var i :| 0 <= i < |targets| && targets[i] == t;
      assert t.block in BlocksOf(targets);
    }
  }

  lemma MasksFit(r: Routing, gs: seq<Cell>)
    requires r.Valid() && forall i :: 0 <= i < |gs| ==> Inside(r.logical, gs[i])
    requires r.block.Volume() <= WORD_BITS * r.blockWordCount
    ensures AllNonNegative(TargetsOf(r, gs))
    ensures forall b :: b in Masks(TargetsOf(r, gs)) ==> Masks(TargetsOf(r, gs))[b] < Pow2(WORD_BITS * r.blockWordCount)
  {
    TargetsInRange(r, gs);
    forall b | b in Masks(TargetsOf(r, gs)) ensures Masks(TargetsOf(r, gs))[b] < Pow2(WORD_BITS * r.blockWordCount) {
      RowsReassemble(r, gs, b);
    }
  }

  /** The set bits of all rows together are as many as the distinct wrapped coordinates: no
      coordinate is lost and none is counted twice, negative offsets included. */
  lemma BitsConserved(r: Routing, gs: seq<Cell>)
    requires r.Valid() && forall i :: 0 <= i < |gs| ==> Inside(r.logical, gs[i])
    requires r.block.Volume() <= WORD_BITS * r.blockWordCount
    ensures AllNonNegative(TargetsOf(r, gs))
    ensures var targets := TargetsOf(r, gs);
            var flats := SortedInts(BlocksOf(targets));
            AllIn(flats, Masks(targets)) && SumRows(Masks(targets), flats, r.blockWordCount) == |Elements(gs)|
  {
    var targets := TargetsOf(r, gs);
    MasksFit(r, gs);
    MaskKeys(targets);
    SortedIn(Masks(targets));
    var flats := SortedInts(BlocksOf(targets));
    RowsPopCount(targets, flats, r.blockWordCount);
    PlacesPartition(Elements(targets), flats);
    AllWithin(targets);
    TargetsDistinct(r, gs);
  }
}

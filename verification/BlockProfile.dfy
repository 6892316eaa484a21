/** Occupancy of fixed-size blocks (_block_profile of benchmarks/density_ld8_p0_benchmark.py), which
    counts through flat block numbers what the flood fill sees as a set of block coordinates. */
module BlockProfile {
  import opened Grid
  import opened Counting
  import opened FloodFill

  datatype Profile = Profile(
    blockGrid: Shape,
    occupiedBlocks: nat,
    occupiedNodes: nat,
    maxNodesPerBlock: nat,
    occupiedFraction: real,
    fixedSlots: nat,
    fixedBytes: nat,
    packedBytes: nat)

  /** Flat number of the block of a node. */
  function BlockFlat(shape: Shape, edge: nat, i: int): int
    requires 0 <= i < shape.Volume() && edge > 0
  {
    Ravel(BlockGrid(shape, Cube(edge)), BlockOf(Cube(edge), Unravel(shape, i)))
  }

  function BlockFlats(flat: seq<int>, shape: Shape, edge: nat): (r: seq<int>)
    requires IndicesValid(flat, shape) && edge > 0
  {
    seq(|flat|, k requires 0 <= k < |flat| => assert flat[k] in flat; BlockFlat(shape, edge, flat[k]))
  }

  /** The distinct values in increasing order. */
  function Unique(values: seq<int>): (r: seq<int>)
    ensures Ascending(AtMostInt, r) && forall v :: v in r <==> v in values
  {
    SortedInts(set v | v in values)
  }

  function Counts(unique: seq<int>, values: seq<int>): (r: seq<nat>)
    ensures |r| == |unique|
    ensures forall k :: 0 <= k < |unique| ==> r[k] == Count(values, unique[k])
  {
    seq(|unique|, k requires 0 <= k < |unique| => Count(values, unique[k]))
  }

  function MaxOf(s: seq<nat>): (m: nat)
    ensures forall v :: v in s ==> v <= m
    ensures if s == [] then m == 0 else m in s
  {
    if s == [] then 0 else
      assert s == [s[0]] + s[1..];
      var m := MaxOf(s[1..]);
      if s[0] >= m then s[0] else m
  }

  function Times(a: nat, b: nat): nat { a * b }

  function Fraction(nodes: nat, slots: nat): real {
    if slots > 0 then nodes as real / slots as real else 0.0
  }

  /** The figures of the report, from the counts and the block volume. */
  function Report(grid: Shape, nodes: nat, counts: seq<nat>, volume: nat): Profile {
    var slots := Times(|counts|, volume);
    Profile(grid, |counts|, nodes, MaxOf(counts), Fraction(nodes, slots), slots,
            slots * 8 + |counts| * 3 * 8,
            nodes * 8 + Times(|counts|, (volume + 7) / 8) + |counts| * 3 * 4)
  }

  function BlockProfileOf(flat: seq<int>, shape: Shape, edge: nat): Profile
    requires IndicesValid(flat, shape) && edge > 0
  {
    var values := BlockFlats(flat, shape, edge);
    Report(BlockGrid(shape, Cube(edge)), |flat|, Counts(Unique(values), values), Cube(edge).Volume())
  }

  // ----- The per-block counts add up to the nodes

  lemma {:induction false} CountsOfNone(unique: seq<int>, values: seq<int>)
    requires forall v :: v in unique ==> v !in values
    ensures Sum(Counts(unique, values)) == 0
  {
    if unique != [] {
      assert Counts(unique, values)[1..] == Counts(unique[1..], values);
      CountPositive(values, unique[0]);
      CountsOfNone(unique[1..], values);
    }
  }

  /** One value more adds one to exactly one of the counts. */
  lemma {:induction false} CountsOfOneMore(unique: seq<int>, v: int, values: seq<int>)
    requires Distinct(unique)
    ensures Sum(Counts(unique, [v] + values)) == Sum(Counts(unique, values)) + if v in unique then 1 else 0
  {
    if unique != [] {
      assert Counts(unique, values)[1..] == Counts(unique[1..], values);
      assert Counts(unique, [v] + values)[1..] == Counts(unique[1..], [v] + values);
      assert ([v] + values)[1..] == values;
      CountsOfOneMore(unique[1..], v, values);
    }
  }

  lemma {:induction false} CountsSum(unique: seq<int>, values: seq<int>)
    requires Distinct(unique) && forall v :: v in values ==> v in unique
    ensures Sum(Counts(unique, values)) == |values|
  {
    if values == [] {
      CountsOfNone(unique, values);
    } else {
      CountsSum(unique, values[1..]);
      CountsOfOneMore(unique, values[0], values[1..]);
      assert values == [values[0]] + values[1..];
    }
  }

  // ----- No block holds more than edge^3 distinct nodes

  function InBlock(flat: seq<int>, shape: Shape, edge: nat, b: int): set<int>
    requires IndicesValid(flat, shape) && edge > 0
  {
    set i | i in flat && BlockFlat(shape, edge, i) == b
  }

  lemma {:induction false} CountIsNodes(flat: seq<int>, shape: Shape, edge: nat, b: int)
    requires IndicesValid(flat, shape) && edge > 0 && Distinct(flat)
    ensures Count(BlockFlats(flat, shape, edge), b) == |InBlock(flat, shape, edge, b)|
  {
    if flat != [] {
      var rest := flat[1..];
      TailElements(flat);
      assert flat[0] !in rest;
      CountIsNodes(rest, shape, edge, b);
      assert BlockFlats(flat, shape, edge)[1..] == BlockFlats(rest, shape, edge);
      assert InBlock(flat, shape, edge, b)
          == if BlockFlat(shape, edge, flat[0]) == b then InBlock(rest, shape, edge, b) + {flat[0]}
             else InBlock(rest, shape, edge, b);
    }
  }

  /** Two nodes of one block with the same place inside it are one node. */
  lemma BlockAndLocalFlat(shape: Shape, edge: nat, i: int, j: int)
    requires 0 <= i < shape.Volume() && 0 <= j < shape.Volume() && edge > 0
    requires BlockFlat(shape, edge, i) == BlockFlat(shape, edge, j)
    requires Ravel(Cube(edge), LocalOf(Cube(edge), Unravel(shape, i)))
          == Ravel(Cube(edge), LocalOf(Cube(edge), Unravel(shape, j)))
    ensures i == j
  {
    var cube, grid := Cube(edge), BlockGrid(shape, Cube(edge));
    var c, d := Unravel(shape, i), Unravel(shape, j);
    RavelUnravel(shape, i); RavelUnravel(shape, j);
    BlockInside(shape, cube, c); BlockInside(shape, cube, d);
    UnravelRavel(grid, BlockOf(cube, c)); UnravelRavel(grid, BlockOf(cube, d));
    LocalInside(cube, c); LocalInside(cube, d);
    UnravelRavel(cube, LocalOf(cube, c)); UnravelRavel(cube, LocalOf(cube, d));
    BlockAndLocal(cube, c, d);
  }

  function LocalNumber(shape: Shape, edge: nat): int -> int
    requires edge > 0
  {
    (i: int) => if 0 <= i < shape.Volume() then Ravel(Cube(edge), LocalOf(Cube(edge), Unravel(shape, i))) else -1
  }

  lemma BlockCapacity(flat: seq<int>, shape: Shape, edge: nat, b: int)
    requires IndicesValid(flat, shape) && edge > 0
    ensures |InBlock(flat, shape, edge, b)| <= Cube(edge).Volume()
  {
    var nodes := InBlock(flat, shape, edge, b);
    var local := LocalNumber(shape, edge);
    forall i, j | i in nodes && j in nodes && local(i) == local(j) ensures i == j {
      BlockAndLocalFlat(shape, edge, i, j);
    }
    forall i | i in nodes ensures 0 <= local(i) < Cube(edge).Volume() {
      LocalInside(Cube(edge), Unravel(shape, i));
      UnravelRavel(Cube(edge), LocalOf(Cube(edge), Unravel(shape, i)));
    }
    BoundedByImage(nodes, local, Cube(edge).Volume());
  }

  lemma {:induction false} SumAtMost(s: seq<nat>, bound: nat)
    requires forall v :: v in s ==> v <= bound
    ensures Sum(s) <= Times(|s|, bound)
  {
    if s != [] {
      TailElements(s);
      SumAtMost(s[1..], bound);
      assert |s| * bound == |s[1..]| * bound + bound;
    }
  }

  // ----- The flat block numbers stand for the blocks of the flood fill

  function Number(grid: Shape): Cell -> int { (c: Cell) => Ravel(grid, c) }

  lemma NumbersSize(grid: Shape, blocks: set<Cell>)
    requires AllInside(grid, blocks)
    ensures |Image(blocks, Number(grid))| == |blocks|
  {
    forall c, d | c in blocks && d in blocks && Number(grid)(c) == Number(grid)(d) ensures c == d {
      UnravelRavel(grid, c);
      UnravelRavel(grid, d);
    }
    ImageSize(blocks, Number(grid));
  }

  lemma NumbersAreFlats(flat: seq<int>, shape: Shape, edge: nat, v: int)
    requires IndicesValid(flat, shape) && edge > 0
    ensures v in Image(BlockSet(flat, shape, edge), Number(BlockGrid(shape, Cube(edge))))
            <==> v in BlockFlats(flat, shape, edge)
  {
    var grid := BlockGrid(shape, Cube(edge));
    var blocks, values := BlockSet(flat, shape, edge), BlockFlats(flat, shape, edge);
    if v in values {
      var k :| 0 <= k < |values| && values[k] == v;
      assert flat[k] in flat;
      assert BlockOf(Cube(edge), Unravel(shape, flat[k])) in blocks;
    }
    if v in Image(blocks, Number(grid)) {
      var c :| c in blocks && Number(grid)(c) == v;
      var i :| i in flat && c == BlockOf(Cube(edge), Unravel(shape, i));
      var k :| 0 <= k < |flat| && flat[k] == i;
      assert values[k] == v;
    }
  }

  lemma BlockCount(flat: seq<int>, shape: Shape, edge: nat)
    requires IndicesValid(flat, shape) && edge > 0
    ensures |Unique(BlockFlats(flat, shape, edge))| == |BlockSet(flat, shape, edge)|
  {
    var grid := BlockGrid(shape, Cube(edge));
    var blocks, values := BlockSet(flat, shape, edge), BlockFlats(flat, shape, edge);
    BlockSetInside(flat, shape, edge);
    NumbersSize(grid, blocks);
    forall v ensures v in Image(blocks, Number(grid)) <==> v in values {
      NumbersAreFlats(flat, shape, edge, v);
    }
    assert Elements(Unique(values)) == Image(blocks, Number(grid));
    DistinctSize(Unique(values));
  }

  /** For distinct nodes: the counts per block add up to the nodes, a block holds at most edge^3 of
      them, the stored blocks are filled to at most 1, and there are as many blocks as the
      components of the flood fill have together. */
  lemma ProfileConsistent(flat: seq<int>, shape: Shape, edge: nat, sizes: seq<nat>)
    requires IndicesValid(flat, shape) && edge > 0 && Distinct(flat)
    requires IsProfile(BlockGrid(shape, Cube(edge)), BlockSet(flat, shape, edge), sizes)
    ensures var p := BlockProfileOf(flat, shape, edge);
            var values := BlockFlats(flat, shape, edge);
            && Sum(Counts(Unique(values), values)) == p.occupiedNodes == |flat|
            && p.maxNodesPerBlock <= Cube(edge).Volume()
            && p.occupiedNodes <= p.fixedSlots && 0.0 <= p.occupiedFraction <= 1.0
            && p.occupiedBlocks == Sum(sizes)
  {
    var values := BlockFlats(flat, shape, edge);
    var unique := Unique(values);
    var counts := Counts(unique, values);
    CountsSum(unique, values);
    forall v | v in counts ensures v <= Cube(edge).Volume() {
      var k :| 0 <= k < |counts| && counts[k] == v;
      CountIsNodes(flat, shape, edge, unique[k]);
      BlockCapacity(flat, shape, edge, unique[k]);
    }
    SumAtMost(counts, Cube(edge).Volume());
    BlockCount(flat, shape, edge);
    ComponentsAddUp(BlockGrid(shape, Cube(edge)), BlockSet(flat, shape, edge), sizes);
    FractionAtMostOne(|flat|, Times(|unique|, Cube(edge).Volume()));
  }

  /** The largest count is that of a fullest block, and 0 without nodes. */
  lemma FullestBlock(flat: seq<int>, shape: Shape, edge: nat)
    requires IndicesValid(flat, shape) && edge > 0 && Distinct(flat)
    ensures var p, values := BlockProfileOf(flat, shape, edge), BlockFlats(flat, shape, edge);
            && (forall b :: b in values ==> |InBlock(flat, shape, edge, b)| <= p.maxNodesPerBlock)
            && if flat == [] then p.maxNodesPerBlock == 0
               else exists b :: b in values && |InBlock(flat, shape, edge, b)| == p.maxNodesPerBlock
  {
    var values := BlockFlats(flat, shape, edge);
    var unique := Unique(values);
    var counts := Counts(unique, values);
    forall b | b in values ensures |InBlock(flat, shape, edge, b)| in counts {
      assert b in unique;
      var k :| 0 <= k < |unique| && unique[k] == b;
      CountIsNodes(flat, shape, edge, b);
      assert counts[k] == |InBlock(flat, shape, edge, b)|;
    }
    if flat == [] {
      assert (set v | v in values) == {};
    } else {
      assert values[0] in values;
      var k :| 0 <= k < |counts| && counts[k] == MaxOf(counts);
      assert unique[k] in unique;
      CountIsNodes(flat, shape, edge, unique[k]);
    }
  }

  /** Blocks stored whole hold 8 bytes a slot and three coordinates of 8 bytes a block; packed, 8 bytes
      a node, and for each block one bit a slot, in whole bytes, and three coordinates of 4 bytes. */
  lemma ReportFigures(grid: Shape, nodes: nat, counts: seq<nat>, volume: nat)
    ensures var p, bitBytes := Report(grid, nodes, counts, volume), (volume + 7) / 8;
            && p.blockGrid == grid && p.occupiedBlocks == |counts| && p.occupiedNodes == nodes
            && p.fixedSlots == |counts| * volume
            && p.fixedBytes == 8 * p.fixedSlots + 24 * |counts|
            && p.packedBytes == 8 * nodes + |counts| * bitBytes + 12 * |counts|
            && volume <= 8 * bitBytes < volume + 8
            && (p.fixedSlots > 0 ==> p.occupiedFraction * p.fixedSlots as real == nodes as real)
  {
    FractionTimes(nodes, Report(grid, nodes, counts, volume).fixedSlots);
  }

  lemma FractionTimes(n: nat, slots: nat)
    ensures slots > 0 ==> Fraction(n, slots) * slots as real == n as real
  {
  }

  lemma FractionAtMostOne(n: nat, slots: nat)
    requires n <= slots
    ensures 0.0 <= Fraction(n, slots) <= 1.0
  {
  }
}

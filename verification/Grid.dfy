/** Row-major numbering of the cells of a three-dimensional grid, and its division into blocks
    (numpy's ravel_multi_index and unravel_index in C order). */
module Grid {

  datatype Cell = Cell(x: int, y: int, z: int)

  /** Grid dimensions, or the dimensions of a block. */
  datatype Shape = Shape(x: nat, y: nat, z: nat) {
    predicate Positive() { x > 0 && y > 0 && z > 0 }

    function Volume(): nat { x * y * z }
  }

  predicate Inside(shape: Shape, c: Cell) {
    0 <= c.x < shape.x && 0 <= c.y < shape.y && 0 <= c.z < shape.z
  }

  function Ravel(shape: Shape, c: Cell): int {
    (c.x * shape.y + c.y) * shape.z + c.z
  }

  function Unravel(shape: Shape, flat: int): Cell
    requires 0 <= flat < shape.Volume()
  {
    VolumePositive(shape);
    Cell(flat / shape.z / shape.y, flat / shape.z % shape.y, flat % shape.z)
  }

  lemma VolumePositive(shape: Shape)
    requires shape.Volume() > 0
    ensures shape.Positive()
  {
    assert shape.x == 0 || shape.y == 0 ==> shape.x * shape.y == 0;
  }

  lemma ScaleUp(a: int, b: int, n: nat)
    requires a <= b
    ensures a * n <= b * n
  {
    assert (b - a) * n >= 0;
  }

  /** k = q * n + r with 0 <= r < n fixes q and r. */
  lemma DivModUnique(k: int, n: int, q: int, r: int)
    requires 0 <= r < n && k == q * n + r
    ensures k / n == q && k % n == r
  {
    var p := k / n;
    assert k == p * n + k % n;
    assert q >= p + 1 ==> q * n >= (p + 1) * n by { if q >= p + 1 { ScaleUp(p + 1, q, n); } }
    assert p >= q + 1 ==> p * n >= (q + 1) * n by { if p >= q + 1 { ScaleUp(q + 1, p, n); } }
  }

  /** q < m and r < n put q * n + r below m * n. */
  lemma MixedRadixBound(q: int, m: int, n: int, r: int)
    requires 0 <= q < m && 0 <= r < n
    ensures 0 <= q * n + r < m * n
  {
    ScaleUp(0, q, n);
    ScaleUp(q + 1, m, n);
  }

  lemma QuotientBound(k: int, m: int, n: int)
    requires 0 <= k < m * n && n > 0
    ensures 0 <= k / n < m
  {
    var q := k / n;
    assert k == q * n + k % n;
    assert q >= m ==> q * n >= m * n by { if q >= m { ScaleUp(m, q, n); } }
    assert q + 1 <= 0 ==> (q + 1) * n <= 0 * n by { if q + 1 <= 0 { ScaleUp(q + 1, 0, n); } }
  }

  /** Numbering a cell and reading the number back gives the cell. */
  lemma UnravelRavel(shape: Shape, c: Cell)
    requires Inside(shape, c)
    ensures 0 <= Ravel(shape, c) < shape.Volume() && Unravel(shape, Ravel(shape, c)) == c
  {
    var row := c.x * shape.y + c.y;
    MixedRadixBound(c.x, shape.x, shape.y, c.y);
    MixedRadixBound(row, shape.x * shape.y, shape.z, c.z);
    DivModUnique(Ravel(shape, c), shape.z, row, c.z);
    DivModUnique(row, shape.y, c.x, c.y);
  }

  /** Every number below the volume is the number of a cell of the grid. */
  lemma RavelUnravel(shape: Shape, flat: int)
    requires 0 <= flat < shape.Volume()
    ensures Inside(shape, Unravel(shape, flat)) && Ravel(shape, Unravel(shape, flat)) == flat
  {
    VolumePositive(shape);
    QuotientBound(flat, shape.x * shape.y, shape.z);
    QuotientBound(flat / shape.z, shape.x, shape.y);
    assert flat / shape.z == flat / shape.z / shape.y * shape.y + flat / shape.z % shape.y;
    assert flat == flat / shape.z * shape.z + flat % shape.z;
  }

  /** c comes before d: x decides, then y, then z. */
  predicate Before(c: Cell, d: Cell) {
    c.x < d.x || (c.x == d.x && (c.y < d.y || (c.y == d.y && c.z < d.z)))
  }

  /** Cells are numbered with z running fastest and x slowest. */
  lemma RavelInOrder(shape: Shape, c: Cell, d: Cell)
    requires Inside(shape, c) && Inside(shape, d)
    ensures Before(c, d) <==> Ravel(shape, c) < Ravel(shape, d)
  {
    if Before(c, d) {
      RavelClimbs(shape, c, d);
    } else if Before(d, c) {
      RavelClimbs(shape, d, c);
    }
  }

  lemma RavelClimbs(shape: Shape, c: Cell, d: Cell)
    requires Inside(shape, c) && Inside(shape, d) && Before(c, d)
    ensures Ravel(shape, c) < Ravel(shape, d)
  {
    var p, q := c.x * shape.y + c.y, d.x * shape.y + d.y;
    if c.x < d.x {
      DigitsClimb(c.x, d.x, shape.y, c.y, d.y);
    }
    if p < q {
      DigitsClimb(p, q, shape.z, c.z, d.z);
    }
  }

  lemma DigitsClimb(p: int, q: int, n: nat, r: int, t: int)
    requires p < q && r < n && 0 <= t
    ensures p * n + r < q * n + t
  {
    ScaleUp(p + 1, q, n);
  }

  // ----- Blocks

  function CeilDiv(n: nat, d: nat): nat
    requires d > 0
  {
    (n + d - 1) / d
  }

  function BlockGrid(shape: Shape, block: Shape): Shape
    requires block.Positive()
  {
    Shape(CeilDiv(shape.x, block.x), CeilDiv(shape.y, block.y), CeilDiv(shape.z, block.z))
  }

  function BlockOf(block: Shape, c: Cell): Cell
    requires block.Positive()
  {
    Cell(c.x / block.x, c.y / block.y, c.z / block.z)
  }

  /** Position of a cell inside its block. */
  function LocalOf(block: Shape, c: Cell): Cell
    requires block.Positive()
  {
    Cell(c.x - c.x / block.x * block.x, c.y - c.y / block.y * block.y, c.z - c.z / block.z * block.z)
  }

  lemma CeilDivBound(n: nat, d: nat, p: int)
    requires d > 0 && 0 <= p < n
    ensures 0 <= p / d < CeilDiv(n, d)
  {
    var q := CeilDiv(n, d);
    assert n + d - 1 == q * d + (n + d - 1) % d;
    QuotientBound(p, q, d);
  }

  lemma BlockInside(shape: Shape, block: Shape, c: Cell)
    requires block.Positive() && Inside(shape, c)
    ensures Inside(BlockGrid(shape, block), BlockOf(block, c))
  {
    CeilDivBound(shape.x, block.x, c.x);
    CeilDivBound(shape.y, block.y, c.y);
    CeilDivBound(shape.z, block.z, c.z);
  }

  lemma LocalInside(block: Shape, c: Cell)
    requires block.Positive()
    ensures Inside(block, LocalOf(block, c))
  {
    assert c.x == c.x / block.x * block.x + c.x % block.x;
    assert c.y == c.y / block.y * block.y + c.y % block.y;
    assert c.z == c.z / block.z * block.z + c.z % block.z;
  }

  /** A cell is determined by its block and its place in the block. */
  lemma BlockAndLocal(block: Shape, c: Cell, d: Cell)
    requires block.Positive() && BlockOf(block, c) == BlockOf(block, d) && LocalOf(block, c) == LocalOf(block, d)
    ensures c == d
  {
  }

  /** A cell is so far into its block as the block's corner leaves, axis by axis. */
  lemma BlockCorner(block: Shape, c: Cell)
    requires block.Positive()
    ensures var b, l := BlockOf(block, c), LocalOf(block, c);
            && c == Cell(b.x * block.x + l.x, b.y * block.y + l.y, b.z * block.z + l.z)
            && Inside(block, l)
  {
    LocalInside(block, c);
  }

  /** Enough blocks to cover n cells, and one fewer would not do. */
  lemma CeilDivExact(n: nat, d: nat)
    requires d > 0
    ensures n <= CeilDiv(n, d) * d < n + d
  {
    var q := CeilDiv(n, d);
    assert n + d - 1 == q * d + (n + d - 1) % d;
  }

  lemma BlockStart(n: nat, d: nat, b: int)
    requires d > 0 && 0 <= b < CeilDiv(n, d)
    ensures 0 <= b * d < n && b * d / d == b
  {
    var q := CeilDiv(n, d);
    CeilDivExact(n, d);
    ScaleUp(0, b, d);
    ScaleUp(b + 1, q, d);
    DivModUnique(b * d, d, b, 0);
  }

  /** No block of the block grid is empty: it is the block of some cell of the grid. */
  lemma BlockReached(shape: Shape, block: Shape, b: Cell) returns (c: Cell)
    requires block.Positive() && Inside(BlockGrid(shape, block), b)
    ensures Inside(shape, c) && BlockOf(block, c) == b
  {
    c := Cell(b.x * block.x, b.y * block.y, b.z * block.z);
    BlockStart(shape.x, block.x, b.x);
    BlockStart(shape.y, block.y, b.y);
    BlockStart(shape.z, block.z, b.z);
  }
}

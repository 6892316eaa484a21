/** Connected groups of occupied blocks on a periodic block grid
    (_connected_block_components of benchmarks/density_ld8_p0_benchmark.py). */
module FloodFill {
  import opened Grid
  import opened Reachability
  import opened Counting
  import opened Options

  datatype Fragmentation = Fragmentation(componentCount: nat, largest: nat, sizes: seq<nat>)

  // ----- What the answer means

  /** p and q are neighbours on a ring of n positions. */
  predicate NextTo(n: nat, p: int, q: int) {
    q == p + 1 || p == q + 1 || (p == 0 && q == n - 1) || (q == 0 && p == n - 1)
  }

  /** On the ring it does not matter where the numbering starts; 0 has the neighbours 1 and n - 1. */
  lemma RingTurns(n: nat, p: int, q: int)
    requires 0 <= p < n && 0 <= q < n
    ensures var p', q' := if p + 1 == n then 0 else p + 1, if q + 1 == n then 0 else q + 1;
            NextTo(n, p', q') <==> NextTo(n, p, q)
    ensures NextTo(n, 0, q) <==> q == (if n == 1 then 0 else 1) || q == n - 1
  {
  }

  /** b differs from a by one step along one axis, with wrap-around. */
  predicate Adjacent(grid: Shape, a: Cell, b: Cell) {
    || (NextTo(grid.x, a.x, b.x) && a.y == b.y && a.z == b.z)
    || (a.x == b.x && NextTo(grid.y, a.y, b.y) && a.z == b.z)
    || (a.x == b.x && a.y == b.y && NextTo(grid.z, a.z, b.z))
  }

  /** The steps available between blocks of s. */
  function Moves(grid: Shape, s: set<Cell>): Cell -> set<Cell> {
    (a: Cell) => set b | b in s && Adjacent(grid, a, b)
  }

  ghost function Component(grid: Shape, s: set<Cell>, a: Cell): set<Cell> {
    set b | b in s && Reaches(Moves(grid, s), a, b)
  }

  ghost function Components(grid: Shape, s: set<Cell>): set<set<Cell>> {
    set a | a in s :: Component(grid, s, a)
  }

  ghost predicate Descending(sizes: seq<nat>) {
    forall i, j :: 0 <= i < j < |sizes| ==> sizes[i] >= sizes[j]
  }

  ghost function OfSize(cs: set<set<Cell>>, n: nat): set<set<Cell>> {
    set c | c in cs && |c| == n
  }

  /** `sizes` lists the cardinalities of the components of s, largest first, each as often as it occurs. */
  ghost predicate IsProfile(grid: Shape, s: set<Cell>, sizes: seq<nat>) {
    Descending(sizes) && forall n: nat :: Count(sizes, n) == |OfSize(Components(grid, s), n)|
  }

  /** The list is determined by the blocks alone, whatever order the blocks are popped in. */
  lemma {:induction false} ProfileUnique(grid: Shape, s: set<Cell>, sizes: seq<nat>, other: seq<nat>)
    requires IsProfile(grid, s, sizes) && IsProfile(grid, s, other)
    ensures sizes == other
  {
    forall n: nat ensures Count(sizes, n) == Count(other, n) {
      assert Count(sizes, n) == |OfSize(Components(grid, s), n)|;
    }
    DescendingUnique(sizes, other);
  }

  lemma {:induction false} DescendingUnique(a: seq<nat>, b: seq<nat>)
    requires Descending(a) && Descending(b) && forall n: nat :: Count(a, n) == Count(b, n)
    ensures a == b
  {
    assert b != [] ==> Count(a, b[0]) == Count(b, b[0]);
    if a != [] {
      assert Count(a, a[0]) == Count(b, a[0]) > 0;
      CountPositive(b, a[0]);
      assert Count(b, b[0]) == Count(a, b[0]) > 0;
      CountPositive(a, b[0]);
      forall n: nat ensures Count(a[1..], n) == Count(b[1..], n) {
        assert Count(a, n) == Count(b, n);
      }
      DescendingUnique(a[1..], b[1..]);
    }
  }

  // ----- Components partition the blocks

  lemma MovesSymmetric(grid: Shape, s: set<Cell>, a: Cell, b: Cell)
    requires a in s && b in Moves(grid, s)(a)
    ensures b in s && a in Moves(grid, s)(b)
  {
  }

  lemma {:induction false} PathBack(grid: Shape, s: set<Cell>, a: Cell, p: seq<Cell>, b: Cell)
    requires a in s && IsPath(Moves(grid, s), a, p, b)
    ensures b in s && Reaches(Moves(grid, s), b, a)
  {
    var next := Moves(grid, s);
    ReachesSelf(next, b);
    if p != [] {
      var c := p[|p| - 1];
      PathBack(grid, s, a, p[..|p| - 1], c);
      MovesSymmetric(grid, s, c, b);
      ReachesStep(next, b, b, c);
      ReachesTransitive(next, b, c, a);
    }
  }

  /** Two blocks of one component have the same component. */
  lemma SameComponent(grid: Shape, s: set<Cell>, a: Cell, b: Cell)
    requires a in s && b in Component(grid, s, a)
    ensures Component(grid, s, b) == Component(grid, s, a)
  {
    var next := Moves(grid, s);
    var p :| IsPath(next, a, p, b);
    PathBack(grid, s, a, p, b);
    forall c | c in s ensures c in Component(grid, s, b) <==> c in Component(grid, s, a) {
      if Reaches(next, a, c) { ReachesTransitive(next, b, a, c); }
      if Reaches(next, b, c) { ReachesTransitive(next, a, b, c); }
    }
  }

  // ----- The six candidates of the inner loops

  function Step(coordinate: int, step: int, size: nat): int
    requires size > 0
  {
    (coordinate + step) % size
  }

  function Candidate(grid: Shape, current: Cell, axis: nat, step: int): Cell
    requires grid.Positive()
  {
    if axis == 0 then current.(x := Step(current.x, step, grid.x))
    else if axis == 1 then current.(y := Step(current.y, step, grid.y))
    else current.(z := Step(current.z, step, grid.z))
  }

  lemma StepIsNextTo(size: nat, p: int, q: int)
    requires 0 <= p < size && 0 <= q < size
    ensures NextTo(size, p, q) <==> q == Step(p, -1, size) || q == Step(p, 1, size)
  {
    DivModUnique(p + 1, size, if p + 1 == size then 1 else 0, if p + 1 == size then 0 else p + 1);
    DivModUnique(p - 1, size, if p == 0 then -1 else 0, if p == 0 then size - 1 else p - 1);
  }

  predicate Tried(grid: Shape, current: Cell, k: nat, key: Cell)
    requires grid.Positive()
  {
    || (k > 0 && key == Candidate(grid, current, 0, -1))
    || (k > 1 && key == Candidate(grid, current, 0, 1))
    || (k > 2 && key == Candidate(grid, current, 1, -1))
    || (k > 3 && key == Candidate(grid, current, 1, 1))
    || (k > 4 && key == Candidate(grid, current, 2, -1))
    || (k > 5 && key == Candidate(grid, current, 2, 1))
  }

  /** The six candidates are exactly the adjacent blocks of the periodic grid. */
  lemma CandidatesAreAdjacent(grid: Shape, current: Cell, key: Cell)
    requires Inside(grid, current) && Inside(grid, key)
    ensures Tried(grid, current, 6, key) <==> Adjacent(grid, current, key)
  {
    StepIsNextTo(grid.x, current.x, key.x);
    StepIsNextTo(grid.y, current.y, key.y);
    StepIsNextTo(grid.z, current.z, key.z);
  }

  /** Two neighbours along each axis, and no others. */
  lemma SixNeighbours(grid: Shape, a: Cell, b: Cell)
    requires Inside(grid, a) && Inside(grid, b)
    ensures Adjacent(grid, a, b) <==>
              b in {Cell((a.x + 1) % grid.x, a.y, a.z), Cell((a.x - 1) % grid.x, a.y, a.z),
                    Cell(a.x, (a.y + 1) % grid.y, a.z), Cell(a.x, (a.y - 1) % grid.y, a.z),
                    Cell(a.x, a.y, (a.z + 1) % grid.z), Cell(a.x, a.y, (a.z - 1) % grid.z)}
  {
    CandidatesAreAdjacent(grid, a, b);
  }

  // ----- The flood fill

  predicate AllInside(grid: Shape, s: set<Cell>) { forall b :: b in s ==> Inside(grid, b) }

  /** One pass over the axes and steps for a popped block: occupied neighbours not yet seen move
      from `blocks` to the stack. */
  method Expand(grid: Shape, current: Cell, blocks: set<Cell>, stack: seq<Cell>)
    returns (blocks': set<Cell>, stack': seq<Cell>)
    requires Inside(grid, current) && AllInside(grid, blocks)
    requires Elements(stack) !! blocks && Distinct(stack)
    ensures blocks' == blocks - Moves(grid, blocks)(current)
    ensures Elements(stack') == Elements(stack) + Moves(grid, blocks)(current) && Distinct(stack')
  {
    blocks', stack' := blocks, stack;
    ghost var seen: set<Cell> := {};
    for axis := 0 to 3
      invariant forall b :: b in seen <==> b in blocks && Tried(grid, current, 2 * axis, b)
      invariant blocks' == blocks - seen && Elements(stack') == Elements(stack) + seen && Distinct(stack')
    {
      var key := Candidate(grid, current, axis, -1);
      if key in blocks' {
        blocks', stack' := blocks' - {key}, stack' + [key];
      }
      seen := if key in blocks then seen + {key} else seen;
      key := Candidate(grid, current, axis, 1);
      if key in blocks' {
        blocks', stack' := blocks' - {key}, stack' + [key];
      }
      seen := if key in blocks then seen + {key} else seen;
    }
    forall b | b in blocks ensures b in seen <==> Adjacent(grid, current, b) {
      CandidatesAreAdjacent(grid, current, b);
    }
    assert seen == Moves(grid, blocks)(current);
  }

  /** No step of the grid leads between the two sets. */
  ghost predicate Apart(grid: Shape, a: set<Cell>, b: set<Cell>) {
    forall p, q :: p in a && q in b ==> !Adjacent(grid, p, q)
  }

  /** What the inner loop keeps: the blocks taken out so far are processed or on the stack, belong to
      the component of the seed, and no processed block has a neighbour left in `blocks`. */
  ghost predicate Filling(grid: Shape, s: set<Cell>, seed: Cell, start: set<Cell>,
                          blocks: set<Cell>, pending: set<Cell>, done: set<Cell>) {
    && blocks <= start && start - blocks == done + pending && done !! pending && seed in done + pending
    && start - blocks <= Component(grid, s, seed)
    && Apart(grid, done, blocks)
  }

  lemma FillingStep(grid: Shape, s: set<Cell>, seed: Cell, start: set<Cell>,
                    blocks: set<Cell>, pending: set<Cell>, done: set<Cell>, current: Cell)
    requires start <= s && Filling(grid, s, seed, start, blocks, pending, done) && current in pending
    ensures var moves := Moves(grid, blocks)(current);
            Filling(grid, s, seed, start, blocks - moves, pending - {current} + moves, done + {current})
  {
    var moves := Moves(grid, blocks)(current);
    ExtendComponent(grid, s, seed, current, moves);
    assert start - (blocks - moves) == (done + {current}) + (pending - {current} + moves);
  }

  /** One turn of the inner loop: pop a block and take in its neighbours. */
  method Visit(grid: Shape, ghost s: set<Cell>, ghost seed: Cell, ghost start: set<Cell>,
               blocks: set<Cell>, stack: seq<Cell>, ghost done: set<Cell>)
    returns (blocks': set<Cell>, stack': seq<Cell>, ghost done': set<Cell>)
    requires start <= s && AllInside(grid, s) && stack != [] && Distinct(stack)
    requires Filling(grid, s, seed, start, blocks, Elements(stack), done)
    ensures Filling(grid, s, seed, start, blocks', Elements(stack'), done') && Distinct(stack')
    ensures |done'| == |done| + 1 <= |start|
  {
    var current := stack[|stack| - 1];
    ElementsWithoutLast(stack);
    FillingStep(grid, s, seed, start, blocks, Elements(stack), done, current);
    assert current in s && AllInside(grid, blocks);
    blocks', stack' := Expand(grid, current, blocks, stack[..|stack| - 1]);
    done' := done + {current};
    SubsetSize(done', start);
  }

  /** The inner loop: what the fill from `seed` takes out of `blocks` is the component of the seed. */
  method Fill(grid: Shape, ghost s: set<Cell>, seed: Cell, start: set<Cell>) returns (size: nat, blocks: set<Cell>)
    requires start <= s && seed in start && AllInside(grid, s)
    requires Apart(grid, start, s - start)
    ensures blocks == start - Component(grid, s, seed)
    ensures Component(grid, s, seed) <= start && size == |Component(grid, s, seed)|
  {
    blocks := start - {seed};
    var stack := [seed];
    size := 0;
    ghost var done: set<Cell> := {};
    ReachesSelf(Moves(grid, s), seed);
    assert start - blocks == {seed} == Elements(stack);
    while stack != []
      invariant Filling(grid, s, seed, start, blocks, Elements(stack), done)
      invariant Distinct(stack) && size == |done|
      decreases |start| - size
    {
      blocks, stack, done := Visit(grid, s, seed, start, blocks, stack, done);
      size := size + 1;
    }
    Filled(grid, s, seed, start, blocks, done);
  }

  lemma Filled(grid: Shape, s: set<Cell>, seed: Cell, start: set<Cell>, blocks: set<Cell>, done: set<Cell>)
    requires start <= s && Apart(grid, start, s - start) && Filling(grid, s, seed, start, blocks, {}, done)
    ensures done == Component(grid, s, seed) <= start && blocks == start - done
  {
    assert done == start - blocks && blocks == start - done;
    ClosedComponent(grid, s, seed, start, done);
  }

  lemma ExtendComponent(grid: Shape, s: set<Cell>, seed: Cell, current: Cell, moves: set<Cell>)
    requires current in Component(grid, s, seed)
    requires forall b :: b in moves ==> b in s && Adjacent(grid, current, b)
    ensures moves <= Component(grid, s, seed)
  {
    forall b | b in moves ensures b in Component(grid, s, seed) {
      ReachesStep(Moves(grid, s), seed, current, b);
    }
  }

  lemma ClosedComponent(grid: Shape, s: set<Cell>, seed: Cell, start: set<Cell>, done: set<Cell>)
    requires start <= s && seed in done && done <= start && done <= Component(grid, s, seed)
    requires Apart(grid, start, s - start) && Apart(grid, done, start - done)
    ensures done == Component(grid, s, seed)
  {
    assert Closed(Moves(grid, s), done);
    forall b | b in Component(grid, s, seed) ensures b in done {
      StaysInside(Moves(grid, s), seed, b, done);
    }
  }

  // ----- The list of sizes

  function InsertDescending(v: nat, s: seq<nat>): (r: seq<nat>)
    requires Descending(s)
    ensures Descending(r) && Sum(r) == Sum(s) + v
    ensures forall n: nat :: Count(r, n) == Count(s, n) + if n == v then 1 else 0
    ensures |r| == |s| + 1 && r[0] == if s == [] || v >= s[0] then v else s[0]
  {
    if s == [] then [v]
    else if v >= s[0] then [v] + s
    else [s[0]] + InsertDescending(v, s[1..])
  }

  /** The sizes with the largest first. */
  function SortDescending(s: seq<nat>): (r: seq<nat>)
    ensures Descending(r) && Sum(r) == Sum(s)
    ensures forall n: nat :: Count(r, n) == Count(s, n)
    ensures |r| == |s|
  {
    if s == [] then [] else InsertDescending(s[0], SortDescending(s[1..]))
  }

  lemma OneMoreOfSize(rest: set<set<Cell>>, c: set<Cell>, n: nat)
    requires c !in rest
    ensures |OfSize(rest + {c}, n)| == |OfSize(rest, n)| + if |c| == n then 1 else 0
  {
    assert OfSize(rest + {c}, n) == if |c| == n then OfSize(rest, n) + {c} else OfSize(rest, n);
  }

  lemma {:induction false} SizesCount(comps: seq<set<Cell>>, sizes: seq<nat>, n: nat)
    requires |comps| == |sizes| && forall i :: 0 <= i < |comps| ==> sizes[i] == |comps[i]|
    requires Distinct(comps)
    ensures Count(sizes, n) == |OfSize(Elements(comps), n)|
  {
    if comps == [] {
      assert OfSize(Elements(comps), n) == {};
    } else {
      var rest := Elements(comps[1..]);
      SizesCount(comps[1..], sizes[1..], n);
      TailElements(comps);
      assert Elements(comps) == rest + {comps[0]} && comps[0] !in rest;
      OneMoreOfSize(rest, comps[0], n);
    }
  }

  ghost predicate ListsComponents(grid: Shape, s: set<Cell>, blocks: set<Cell>, comps: seq<set<Cell>>,
                                  sizes: seq<nat>)
  {
    && |comps| == |sizes| && Distinct(comps)
    && (forall i :: 0 <= i < |comps| ==> sizes[i] == |comps[i]| && comps[i] !! blocks)
    && (forall c :: c in comps ==> c in Components(grid, s))
    && (forall b :: b in s - blocks ==> Component(grid, s, b) in comps)
  }

  /** Taking the component of a block out leaves the other components whole. */
  lemma ComponentTaken(grid: Shape, s: set<Cell>, seed: Cell, start: set<Cell>, blocks: set<Cell>)
    requires seed in start && start <= s && Apart(grid, start, s - start)
    requires blocks == start - Component(grid, s, seed) && Component(grid, s, seed) <= start
    ensures seed in Component(grid, s, seed) && Apart(grid, blocks, s - blocks)
    ensures forall b :: b in Component(grid, s, seed) ==> Component(grid, s, b) == Component(grid, s, seed)
  {
    var comp := Component(grid, s, seed);
    ReachesSelf(Moves(grid, s), seed);
    forall b | b in comp ensures Component(grid, s, b) == comp {
      SameComponent(grid, s, seed, b);
    }
    forall p, q | p in blocks && q in s - blocks ensures !Adjacent(grid, p, q) {
      if q in comp && Adjacent(grid, p, q) {
        assert p in Moves(grid, s)(q);
        ReachesStep(Moves(grid, s), seed, q, p);
      }
    }
  }

  lemma ComponentListed(grid: Shape, s: set<Cell>, seed: Cell, start: set<Cell>, blocks: set<Cell>,
                        comps: seq<set<Cell>>, sizes: seq<nat>)
    requires seed in start && start <= s && Apart(grid, start, s - start)
    requires ListsComponents(grid, s, start, comps, sizes)
    requires blocks == start - Component(grid, s, seed) && Component(grid, s, seed) <= start
    ensures Apart(grid, blocks, s - blocks)
    ensures ListsComponents(grid, s, blocks, comps + [Component(grid, s, seed)], sizes + [|Component(grid, s, seed)|])
  {
    ComponentTaken(grid, s, seed, start, blocks);
    var comp := Component(grid, s, seed);
    forall i | 0 <= i < |comps| ensures comps[i] != comp {
      assert seed !in comps[i];
    }
  }

  lemma ListedProfile(grid: Shape, s: set<Cell>, comps: seq<set<Cell>>, sizes: seq<nat>)
    requires ListsComponents(grid, s, {}, comps, sizes)
    ensures IsProfile(grid, s, SortDescending(sizes)) && |sizes| == |Components(grid, s)|
  {
    assert Elements(comps) == Components(grid, s);
    DistinctSize(comps);
    forall n: nat ensures Count(sizes, n) == |OfSize(Components(grid, s), n)| {
      SizesCount(comps, sizes, n);
    }
  }

  lemma {:induction false} ListTheRest(grid: Shape, s: set<Cell>, blocks: set<Cell>, comps: seq<set<Cell>>,
                                       sizes: seq<nat>)
    returns (comps': seq<set<Cell>>, sizes': seq<nat>)
    requires blocks <= s && Apart(grid, blocks, s - blocks)
    requires ListsComponents(grid, s, blocks, comps, sizes) && Sum(sizes) + |blocks| == |s|
    ensures ListsComponents(grid, s, {}, comps', sizes') && Sum(sizes') == |s|
    decreases |blocks|
  {
    if blocks == {} {
      return comps, sizes;
    }
    var seed :| seed in blocks;
    var comp := Component(grid, s, seed);
    ReachesSelf(Moves(grid, s), seed);
    forall b | b in comp ensures b in blocks {
      StaysInside(Moves(grid, s), seed, b, blocks);
    }
    ComponentListed(grid, s, seed, blocks, blocks - comp, comps, sizes);
    SumAppend(sizes, |comp|);
    assert blocks == (blocks - comp) + comp;
    comps', sizes' := ListTheRest(grid, s, blocks - comp, comps + [comp], sizes + [|comp|]);
  }

  /** The components have as many blocks as there are. */
  lemma ComponentsAddUp(grid: Shape, s: set<Cell>, sizes: seq<nat>)
    requires IsProfile(grid, s, sizes)
    ensures Sum(sizes) == |s|
  {
    var comps', sizes' := ListTheRest(grid, s, s, [], []);
    ListedProfile(grid, s, comps', sizes');
    ProfileUnique(grid, s, sizes, SortDescending(sizes'));
  }

  /** The outer loop, over a set of blocks of the grid. */
  method ComponentSizes(grid: Shape, s: set<Cell>) returns (sizes: seq<nat>)
    requires AllInside(grid, s)
    ensures IsProfile(grid, s, sizes)
    ensures Sum(sizes) == |s| && |sizes| == |Components(grid, s)|
  {
    var blocks := s;
    sizes := [];
    ghost var comps: seq<set<Cell>> := [];
    while blocks != {}
      invariant blocks <= s && Apart(grid, blocks, s - blocks)
      invariant ListsComponents(grid, s, blocks, comps, sizes)
      invariant Sum(sizes) + |blocks| == |s|
      decreases |blocks|
    {
      var seed :| seed in blocks;
      ghost var start, comp := blocks, Component(grid, s, seed);
      var size;
      size, blocks := Fill(grid, s, seed, blocks);
      ReachesSelf(Moves(grid, s), seed);
      assert start == blocks + comp && seed in comp;
      ComponentListed(grid, s, seed, start, blocks, comps, sizes);
      SumAppend(sizes, size);
      sizes, comps := sizes + [size], comps + [comp];
    }
    ListedProfile(grid, s, comps, sizes);
    sizes := SortDescending(sizes);
  }

  // ----- The whole function

  predicate IndicesValid(flat: seq<int>, shape: Shape) {
    forall i :: i in flat ==> 0 <= i < shape.Volume()
  }

  function Cube(edge: nat): Shape { Shape(edge, edge, edge) }

  /** The blocks that hold at least one of the nodes. */
  function BlockSet(flat: seq<int>, shape: Shape, edge: nat): set<Cell>
    requires IndicesValid(flat, shape) && edge > 0
  {
    set i | i in flat :: BlockOf(Cube(edge), Unravel(shape, i))
  }

  lemma BlockSetInside(flat: seq<int>, shape: Shape, edge: nat)
    requires IndicesValid(flat, shape) && edge > 0
    ensures AllInside(BlockGrid(shape, Cube(edge)), BlockSet(flat, shape, edge))
  {
    forall i | i in flat
      ensures Inside(BlockGrid(shape, Cube(edge)), BlockOf(Cube(edge), Unravel(shape, i)))
    {
      RavelUnravel(shape, i);
      BlockInside(shape, Cube(edge), Unravel(shape, i));
    }
  }

  /** _connected_block_components; None where numpy refuses an index outside the grid. */
  method ConnectedBlockComponents(flat: seq<int>, shape: Shape, edge: nat) returns (r: Option<Fragmentation>)
    requires edge > 0
    ensures r.Some? <==> IndicesValid(flat, shape)
    ensures r.Some? ==>
              var s := BlockSet(flat, shape, edge);
              && IsProfile(BlockGrid(shape, Cube(edge)), s, r.value.sizes)
              && Sum(r.value.sizes) == |s|
              && r.value.componentCount == |r.value.sizes| == |Components(BlockGrid(shape, Cube(edge)), s)|
              && (forall n :: n in r.value.sizes ==> n <= r.value.largest)
              && (if s == {} then r.value.largest == 0 else r.value.largest in r.value.sizes)
  {
    if exists i :: i in flat && !(0 <= i < shape.Volume()) {
      return None;
    }
    BlockSetInside(flat, shape, edge);
    var grid := BlockGrid(shape, Cube(edge));
    var blocks := BlockSet(flat, shape, edge);
    var sizes := ComponentSizes(grid, blocks);
    r := Some(Fragmentation(|sizes|, if sizes == [] then 0 else sizes[0], sizes));
  }
}

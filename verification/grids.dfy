/** Board geometry: points, the four moves, and the 20x20 grid of cells. */
module Grids {
  import opened Cells

  /** Side length of the square board. */
  const GridSize: int := 20

  /** A board coordinate, compared by value. */
  datatype Point = Point(x: int, y: int)

  /** The four moves; "up" decreases y. */
  datatype Direction = Up | Down | Left | Right

  predicate IsValidPosition(x: int, y: int) {
    0 <= x < GridSize && 0 <= y < GridSize
  }

  predicate InBounds(p: Point) {
    IsValidPosition(p.x, p.y)
  }

  /** Every coordinate of the board. */
  function AllCells(): (cells: set<Point>)
    ensures forall p :: p in cells <==> InBounds(p)
  {
    var cells := set x, y | 0 <= x < GridSize && 0 <= y < GridSize :: Point(x, y);
    assert forall p :: InBounds(p) ==> Point(p.x, p.y) in cells;
    cells
  }

  ghost predicate IsGrid(g: seq<seq<Cell>>) {
    |g| == GridSize && forall r :: 0 <= r < |g| ==> |g[r]| == GridSize
  }

  /** A board, stored row by row: the cell at (x, y) is `g[y][x]`. */
  type Grid = g: seq<seq<Cell>> | IsGrid(g) witness Fill(Empty)

  /** The board with every cell set to `c`. */
  function Fill(c: Cell): (g: seq<seq<Cell>>)
    ensures IsGrid(g)
    ensures forall p :: InBounds(p) ==> g[p.y][p.x] == c
  {
    seq(GridSize, _ => seq(GridSize, _ => c))
  }

  function Get(g: Grid, p: Point): Cell
    requires InBounds(p)
  {
    g[p.y][p.x]
  }

  /** The board with the cell at `p` replaced by `c`, all other cells as before. */
  function Set(g: Grid, p: Point, c: Cell): (r: Grid)
    requires InBounds(p)
    ensures Get(r, p) == c
    ensures forall q :: InBounds(q) && q != p ==> Get(r, q) == Get(g, q)
  {
    g[p.y := g[p.y][p.x := c]]
  }

  /** The four neighbours of `p`, in the search order down, right, up, left. */
  function Neighbours(p: Point): seq<Point> {
    [Point(p.x, p.y + 1), Point(p.x + 1, p.y), Point(p.x, p.y - 1), Point(p.x - 1, p.y)]
  }

  /** One unit step apart horizontally or vertically. */
  predicate Adjacent(a: Point, b: Point) {
    || (a.x == b.x && (b.y == a.y + 1 || b.y == a.y - 1))
    || (a.y == b.y && (b.x == a.x + 1 || b.x == a.x - 1))
  }

  /** The neighbour list holds exactly the adjacent points. */
  lemma NeighboursAreAdjacent(a: Point, b: Point)
    ensures b in Neighbours(a) <==> Adjacent(a, b)
  {
  }

  /** The point one move away from `p` in direction `d`. */
  function Step(p: Point, d: Direction): (q: Point)
    ensures Adjacent(p, q)
  {
    match d
    case Up => Point(p.x, p.y - 1)
    case Down => Point(p.x, p.y + 1)
    case Left => Point(p.x - 1, p.y)
    case Right => Point(p.x + 1, p.y)
  }

  function Abs(n: int): nat {
    if n < 0 then -n else n
  }

  /** Manhattan distance, the A* heuristic. */
  function Manhattan(a: Point, b: Point): nat {
    Abs(a.x - b.x) + Abs(a.y - b.y)
  }

  lemma AdjacentSymmetric(a: Point, b: Point)
    ensures Adjacent(a, b) <==> Adjacent(b, a)
  {
  }

  lemma AdjacentIrreflexive(a: Point)
    ensures !Adjacent(a, a)
  {
  }

  /** Adjacency is exactly Manhattan distance one. */
  lemma AdjacentIsUnitDistance(a: Point, b: Point)
    ensures Adjacent(a, b) <==> Manhattan(a, b) == 1
  {
  }

  /** The Manhattan heuristic is consistent for unit steps: it drops by at most one per step. */
  lemma ManhattanConsistent(a: Point, b: Point, goal: Point)
    requires Adjacent(a, b)
    ensures Manhattan(a, goal) <= Manhattan(b, goal) + 1
  {
  }

  /** No point is listed twice. */
  predicate Distinct(ps: seq<Point>) {
    forall i, j :: 0 <= i < |ps| && 0 <= j < |ps| && i != j ==> ps[i] != ps[j]
  }

  /** A sequence without repetitions has as many distinct elements as elements. */
  lemma {:induction false} DistinctElements(ds: seq<Point>)
    requires Distinct(ds)
    ensures |(set p | p in ds)| == |ds|
  {
    if ds != [] {
      assert Distinct(ds[1..]) by {
        forall i, j | 0 <= i < |ds[1..]| && 0 <= j < |ds[1..]| && i != j
          ensures ds[1..][i] != ds[1..][j]
        {
          assert ds[1..][i] == ds[i + 1] && ds[1..][j] == ds[j + 1];
        }
      }
      DistinctElements(ds[1..]);
      assert ds[0] !in ds[1..] by {
        forall i | 0 <= i < |ds[1..]|
          ensures ds[1..][i] != ds[0]
        {
          assert ds[1..][i] == ds[i + 1];
        }
      }
      assert (set p | p in ds) == {ds[0]} + (set p | p in ds[1..]);
    }
  }
}

/**
 The two coordinate systems of the engine: signed board coordinates, stepped by
 a direction, and cell indices `y * width + x`, whose neighbours the graph
 searches enumerate in the order up, down, left, right.
 */
module Grid {
  import opened Graphs

  datatype Coord = Coord(x: int, y: int)

  datatype Move = Invalid | Up | Down | Left | Right

  const DIRECTIONS: seq<Move> := [Up, Down, Left, Right]

  function MoveStep(c: Coord, m: Move): Coord {
    match m
    case Up => Coord(c.x, c.y + 1)
    case Down => Coord(c.x, c.y - 1)
    case Left => Coord(c.x - 1, c.y)
    case Right => Coord(c.x + 1, c.y)
    case Invalid => c
  }

  predicate InGrid(width: int, height: int, c: Coord) {
    0 <= c.x < width && 0 <= c.y < height
  }

  function CellIndex(width: nat, c: Coord): int {
    c.y * width + c.x
  }

  function CellCoord(width: nat, cell: nat): Coord
    requires width > 0
  {
    Coord(cell % width, cell / width)
  }

  /** Neighbouring cells in the order in which every search of the engine lists them. */
  function Neighbors(width: nat, height: nat, cell: nat): (r: seq<nat>)
    requires width > 0 && cell < width * height
  {
    var x, y := cell % width, cell / width;
    (if y + 1 < height then [cell + width] else [])
    + (if y > 0 then CellAbove(width, cell) else [])
    + (if x > 0 then [cell - 1] else [])
    + (if x + 1 < width then [cell + 1] else [])
  }

  function CellAbove(width: nat, cell: nat): seq<nat>
    requires width > 0 && cell / width > 0
  {
    CellDecompose(width, cell);
    [cell - width]
  }

  lemma MulAdd(a: int, b: int, w: int)
    ensures (a + b) * w == a * w + b * w
  {}

  lemma MulMonotone(a: int, b: int, w: nat)
    requires a <= b
    ensures a * w <= b * w
  {}

  lemma CellDecompose(width: nat, cell: nat)
    requires width > 0
    ensures 0 <= cell % width < width
    ensures cell == (cell / width) * width + cell % width
    ensures cell / width > 0 ==> cell >= width
  {}

  lemma DivisionUnique(width: nat, x: nat, y: nat, x': nat, y': nat)
    requires x < width && x' < width && y * width + x == y' * width + x'
    ensures x == x' && y == y'
  {
    if y < y' {
      MulMonotone(y + 1, y', width);
      MulAdd(y, 1, width);
    } else if y' < y {
      MulMonotone(y' + 1, y, width);
      MulAdd(y', 1, width);
    }
  }

  /** Division with remainder is unique. */
  lemma CellUnique(width: nat, cell: nat, x: nat, y: nat)
    requires x < width && cell == y * width + x
    ensures cell % width == x && cell / width == y
  {
    CellDecompose(width, cell);
    DivisionUnique(width, x, y, cell % width, cell / width);
  }

  /** A row below the last one has room for a whole further row. */
  lemma RowFits(width: nat, height: nat, x: nat, y: nat)
    requires x < width && y < height
    ensures y * width + x < width * height
    ensures y + 1 < height ==> y * width + x + width < width * height
  {
    MulMonotone(y + 1, height, width);
    MulAdd(y, 1, width);
    if y + 1 < height {
      MulMonotone(y + 2, height, width);
      MulAdd(y, 2, width);
    }
  }

  lemma IndexInRange(width: nat, height: nat, c: Coord)
    requires InGrid(width, height, c)
    ensures 0 <= CellIndex(width, c) < width * height
    ensures CellCoord(width, CellIndex(width, c)) == c
  {
    MulMonotone(0, c.y, width);
    RowFits(width, height, c.x, c.y);
    CellUnique(width, CellIndex(width, c), c.x, c.y);
  }

  lemma CoordInRange(width: nat, height: nat, cell: nat)
    requires cell < width * height && width > 0
    ensures InGrid(width, height, CellCoord(width, cell))
    ensures CellIndex(width, CellCoord(width, cell)) == cell
  {}

  /** The neighbours in terms of the row and column they lie in. */
  lemma NeighborsByRow(width: nat, height: nat, cell: nat, x: nat, y: nat)
    requires x < width && y < height && cell == y * width + x && cell < width * height
    ensures Neighbors(width, height, cell)
         == (if y + 1 < height then [cell + width] else [])
            + (if y > 0 then [cell - width] else [])
            + (if x > 0 then [cell - 1] else [])
            + (if x + 1 < width then [cell + 1] else [])
    ensures y > 0 ==> cell - width == (y - 1) * width + x
    ensures cell + width == (y + 1) * width + x
  {
    CellUnique(width, cell, x, y);
    MulAdd(y, 1, width);
    MulAdd(y, -1, width);
  }

  lemma StepOfNeighbor(width: nat, x: nat, y: nat, x': nat, y': nat, cell: nat, other: nat)
    requires x < width && x' < width && cell == y * width + x && other == y' * width + x'
    ensures other == cell + width <==> (x' == x && y' == y + 1)
    ensures other == cell - width <==> (x' == x && y' == y - 1)
    ensures x > 0 ==> (other == cell - 1 <==> (x' == x - 1 && y' == y))
    ensures x + 1 < width ==> (other == cell + 1 <==> (x' == x + 1 && y' == y))
  {
    MulAdd(y, 1, width);
    MulAdd(y', 1, width);
    if other == cell + width {
      DivisionUnique(width, x', y', x, y + 1);
    }
    if other == cell - width {
      DivisionUnique(width, x, y, x', y' + 1);
    }
    if x > 0 && other == cell - 1 {
      DivisionUnique(width, x', y', x - 1, y);
    }
    if x + 1 < width && other == cell + 1 {
      DivisionUnique(width, x', y', x + 1, y);
    }
  }

  /**
   A cell's listed neighbours are exactly the in-bounds cells one step away, so
   the index view and the coordinate view describe the same adjacency.
   */
  lemma NeighborsAreSteps(width: nat, height: nat, cell: nat, other: nat)
    requires width > 0 && cell < width * height && other < width * height
    ensures other in Neighbors(width, height, cell) <==>
            exists m :: m in DIRECTIONS && MoveStep(CellCoord(width, cell), m) == CellCoord(width, other)
  {
    var c, d := CellCoord(width, cell), CellCoord(width, other);
    CoordInRange(width, height, cell);
    CoordInRange(width, height, other);
    NeighborsByRow(width, height, cell, c.x, c.y);
    StepOfNeighbor(width, c.x, c.y, d.x, d.y, cell, other);
    assert Up in DIRECTIONS && Down in DIRECTIONS && Left in DIRECTIONS && Right in DIRECTIONS;
    if other in Neighbors(width, height, cell) {
      assert MoveStep(c, Up) == d || MoveStep(c, Down) == d || MoveStep(c, Left) == d || MoveStep(c, Right) == d;
    }
  }

  /** The board as a graph on cell indices. */
  function GridGraph(width: nat, height: nat): (g: Graph)
    ensures |g| == width * height
  {
    seq(width * height, cell requires 0 <= cell < width * height =>
      assert width > 0;
      Neighbors(width, height, cell))
  }

  function Opposite(m: Move): Move {
    match m
    case Up => Down
    case Down => Up
    case Left => Right
    case Right => Left
    case Invalid => Invalid
  }

  lemma GridGraphWellFormed(width: nat, height: nat)
    ensures WellFormed(GridGraph(width, height))
    ensures Symmetric(GridGraph(width, height))
  {
    var g := GridGraph(width, height);
    forall u, k | 0 <= u < |g| && 0 <= k < |g[u]|
      ensures g[u][k] < |g|
    {
      NeighborInRange(width, height, u, k);
    }
    forall u, v | 0 <= u < |g| && 0 <= v < |g| && v in g[u]
      ensures u in g[v]
    {
      NeighborsAreSteps(width, height, u, v);
      NeighborsAreSteps(width, height, v, u);
      var m :| m in DIRECTIONS && MoveStep(CellCoord(width, u), m) == CellCoord(width, v);
      assert Opposite(m) in DIRECTIONS;
      assert MoveStep(CellCoord(width, v), Opposite(m)) == CellCoord(width, u);
    }
  }

  lemma NeighborInRange(width: nat, height: nat, cell: nat, k: nat)
    requires width > 0 && cell < width * height && k < |Neighbors(width, height, cell)|
    ensures Neighbors(width, height, cell)[k] < width * height
  {
    var c := CellCoord(width, cell);
    CoordInRange(width, height, cell);
    NeighborsByRow(width, height, cell, c.x, c.y);
    RowFits(width, height, c.x, c.y);
    if c.x + 1 < width {
      RowFits(width, height, c.x + 1, c.y);
    }
  }

  function Abs(v: int): nat { if v < 0 then -v else v }

  function Manhattan(a: Coord, b: Coord): nat {
    Abs(a.x - b.x) + Abs(a.y - b.y)
  }
}

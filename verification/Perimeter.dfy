/**
 The perimeter of a rectangle, numbered counter-clockwise from its lower left corner.
 */
module Perimeter {
  import opened Grid
  import opened Remainders

  datatype Rect = Rect(minX: int, minY: int, maxX: int, maxY: int) {
    function Width(): int { maxX - minX + 1 }

    function Height(): int { maxY - minY + 1 }

    function Capacity(): int { 2 * Width() + 2 * Height() - 4 }

    predicate Proper() { Width() >= 2 && Height() >= 2 }

    predicate Contains(c: Coord) { minX <= c.x <= maxX && minY <= c.y <= maxY }

    /** On the border of the rectangle. */
    predicate OnBorder(c: Coord) {
      Contains(c) && (c.x == minX || c.x == maxX || c.y == minY || c.y == maxY)
    }
  }

  function PerimeterIndex(c: Coord, r: Rect): int {
    if c.y == r.minY && r.minX <= c.x <= r.maxX then c.x - r.minX
    else if c.x == r.maxX && r.minY < c.y <= r.maxY then r.Width() - 1 + c.y - r.minY
    else if c.y == r.maxY && r.minX <= c.x < r.maxX then r.Width() + r.Height() - 2 + r.maxX - c.x
    else if c.x == r.minX && r.minY < c.y < r.maxY then 2 * r.Width() + r.Height() - 3 + r.maxY - c.y
    else -1
  }

  function PerimeterCoord(index: int, r: Rect): Coord {
    if index < r.Width() then Coord(r.minX + index, r.minY)
    else if index - r.Width() < r.Height() - 1 then Coord(r.maxX, r.minY + 1 + index - r.Width())
    else if index - r.Width() - (r.Height() - 1) < r.Width() - 1 then
      Coord(r.maxX - 1 - (index - r.Width() - (r.Height() - 1)), r.maxY)
    else Coord(r.minX, r.maxY - 1 - (index - r.Width() - (r.Height() - 1) - (r.Width() - 1)))
  }

  /** Exactly the border cells have an index, and it leads back to the cell. */
  lemma CoordOfIndex(c: Coord, r: Rect)
    requires r.Proper()
    ensures PerimeterIndex(c, r) >= 0 <==> r.OnBorder(c)
    ensures r.OnBorder(c) ==> PerimeterIndex(c, r) < r.Capacity() && PerimeterCoord(PerimeterIndex(c, r), r) == c
  {}

  /** Exactly the numbers below the capacity are indices, each of a border cell of its own. */
  lemma IndexOfCoord(i: int, r: Rect)
    requires r.Proper() && 0 <= i < r.Capacity()
    ensures r.OnBorder(PerimeterCoord(i, r)) && PerimeterIndex(PerimeterCoord(i, r), r) == i
  {}

  /** Consecutive indices, the last and the first included, are one step apart. */
  lemma NeighborsAreAdjacent(i: int, r: Rect)
    requires r.Proper() && 0 <= i < r.Capacity()
    ensures exists m :: m in DIRECTIONS && MoveStep(PerimeterCoord(i, r), m) == PerimeterCoord(Next(i, r.Capacity()), r)
    ensures exists m :: m in DIRECTIONS && MoveStep(PerimeterCoord(Next(i, r.Capacity()), r), m) == PerimeterCoord(i, r)
  {
    var c, d := PerimeterCoord(i, r), PerimeterCoord(Next(i, r.Capacity()), r);
    var m := if d.x > c.x then Right else if d.x < c.x then Left else if d.y > c.y then Up else Down;
    assert m in DIRECTIONS && Opposite(m) in DIRECTIONS;
    assert MoveStep(c, m) == d && MoveStep(d, Opposite(m)) == c;
  }
}

/**
 Marking coordinates in an array with one entry per cell.
 */
module CellMarks {
  import opened Grid
  import opened Boards

  /** Sets the cell of a coordinate, if it is on the board. */
  method SetCell(b: Board, marks: array<bool>, c: Coord, mark: bool)
    requires b.width > 0 && b.height > 0 && marks.Length == b.width * b.height
    modifies marks
    ensures forall k :: 0 <= k < marks.Length ==>
      marks[k] == if CellCoord(b.width, k) == c then mark else old(marks[k])
  {
    if b.InBounds(c) {
      IndexInRange(b.width, b.height, c);
      marks[CellIndex(b.width, c)] := mark;
    }
    forall k | 0 <= k < marks.Length
      ensures marks[k] == if CellCoord(b.width, k) == c then mark else old(marks[k])
    {
      CoordInRange(b.width, b.height, k);
    }
  }

  /** Marks every listed coordinate. */
  method MarkCells(b: Board, marks: array<bool>, cells: seq<Coord>)
    requires b.width > 0 && b.height > 0 && marks.Length == b.width * b.height
    modifies marks
    ensures forall k :: 0 <= k < marks.Length ==> (marks[k] <==> old(marks[k]) || CellCoord(b.width, k) in cells)
  {
    for j := 0 to |cells|
      invariant forall k :: 0 <= k < marks.Length ==> (marks[k] <==> old(marks[k]) || CellCoord(b.width, k) in cells[..j])
    {
      SetCell(b, marks, cells[j], true);
      assert cells[..j + 1] == cells[..j] + [cells[j]];
    }
    assert cells[..|cells|] == cells;
  }
}

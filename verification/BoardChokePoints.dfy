/**
 Choke points on a board: which cells count as blocked for a snake, and the cells
 whose loss would cut off part of what its head can reach.
 */
module BoardChokePoints {
  import opened Graphs
  import opened Grid
  import opened Boards
  import opened Optional
  import opened Limits
  import opened CellMarks
  import opened LowLink
  import opened ChokePoints
  import opened ChokeSearch
  import opened BlockedRoots
  import Capacity
  import Counting

  /** Some snake's body, its tail excepted, covers the cell. */
  ghost predicate Covered(b: Board, n: nat, c: Coord)
    requires n <= |b.snakes|
  {
    exists i :: 0 <= i < n && CoveredBy(b.snakes[i], c)
  }

  ghost predicate CoveredBy(s: Snake, c: Coord) {
    s.body != [] && c in s.body[..|s.body| - 1]
  }

  /** The head's own cell is open again, unless it is a hazard the snake cannot afford. */
  ghost predicate Blocked(b: Board, s: Snake, c: Coord) {
    || (Covered(b, |b.snakes|, c) && c != s.Head())
    || (HazardKills(b, s) && c in b.hazards)
  }

  ghost function FreeCells(b: Board, s: Snake): (r: set<nat>)
    requires b.width > 0 && b.height > 0
    ensures forall c: nat :: c in r ==> c < b.width * b.height
  {
    set c: nat | c < b.width * b.height && !Blocked(b, s, CellCoord(b.width, c))
  }

  method FillMovementBlocks(b: Board, id: string, blocked: array<bool>)
    requires b.width > 0 && b.height > 0 && blocked.Length == b.width * b.height
    requires forall k :: 0 <= k < blocked.Length ==> !blocked[k]
    requires Alive(b, id)
    modifies blocked
    ensures forall k :: 0 <= k < blocked.Length ==>
      (blocked[k] <==> Blocked(b, Lookup(b, id).value, CellCoord(b.width, k)))
  {
    for i := 0 to |b.snakes|
      invariant forall k :: 0 <= k < blocked.Length ==> (blocked[k] <==> Covered(b, i, CellCoord(b.width, k)))
    {
      var body := b.snakes[i].body;
      MarkCells(b, blocked, if body == [] then [] else body[..|body| - 1]);
      forall k | 0 <= k < blocked.Length
        ensures Covered(b, i + 1, CellCoord(b.width, k)) <==>
          Covered(b, i, CellCoord(b.width, k)) || CoveredBy(b.snakes[i], CellCoord(b.width, k))
      {
        assert CoveredBy(b.snakes[i], CellCoord(b.width, k)) ==> Covered(b, i + 1, CellCoord(b.width, k));
      }
    }
    hide Covered;
    var s := Lookup(b, id).value;
    SetCell(b, blocked, s.Head(), false);
    if HazardKills(b, s) {
      MarkCells(b, blocked, b.hazards);
    }
  }

  /** Coordinates of the marked cells below n, in cell order. */
  function Collected(width: nat, marks: seq<bool>, n: nat): (r: seq<Coord>)
    requires width > 0 && n <= |marks|
    ensures forall c :: c in r <==> exists k :: 0 <= k < n && marks[k] && c == CellCoord(width, k)
  {
    if n == 0 then []
    else Collected(width, marks, n - 1) + (if marks[n - 1] then [CellCoord(width, n - 1)] else [])
  }

  lemma CollectedPoints(b: Board, marks: seq<bool>, c: Coord)
    requires b.width > 0 && b.height > 0 && |marks| == b.width * b.height
    ensures b.InBounds(c) ==> 0 <= CellIndex(b.width, c) < |marks|
    ensures c in Collected(b.width, marks, |marks|) <==> b.InBounds(c) && marks[CellIndex(b.width, c)]
  {
    if b.InBounds(c) {
      IndexInRange(b.width, b.height, c);
    }
    if c in Collected(b.width, marks, |marks|) {
      var k :| 0 <= k < |marks| && marks[k] && c == CellCoord(b.width, k);
      CoordInRange(b.width, b.height, k);
    }
  }

  /** Blocking the cell would cut off some other cell the head can reach. */
  ghost predicate ChokePoint(b: Board, s: Snake, c: Coord)
    requires Capacity.OnBoard(b, s)
  {
    b.InBounds(c) &&
    CutVertex(GridGraph(b.width, b.height), FreeCells(b, s), CellIndex(b.width, s.body[0]), CellIndex(b.width, c))
  }

  /**
   From a blocked head: the cell is the first neighbour of the head in its component, and not the
   only cell there, or it cuts something off from that neighbour.
   */
  ghost predicate ComponentPoint(b: Board, s: Snake, c: Coord)
    requires Capacity.OnBoard(b, s)
  {
    b.InBounds(c) &&
    CutsComponent(GridGraph(b.width, b.height), FreeCells(b, s), CellIndex(b.width, s.body[0]), CellIndex(b.width, c))
  }

  lemma BoardSetting(b: Board, s: Snake)
    requires Capacity.OnBoard(b, s)
    ensures Setting(GridGraph(b.width, b.height), FreeCells(b, s), CellIndex(b.width, s.body[0]))
    ensures CellIndex(b.width, s.body[0]) in FreeCells(b, s) <==> !Blocked(b, s, s.Head())
  {
    GridGraphWellFormed(b.width, b.height);
    IndexInRange(b.width, b.height, s.body[0]);
  }

  /**
   A blocked head is told of every choke point. It is told of others only when two neighbours of
   the head share a component.
   */
  lemma BlockedHeadPoints(b: Board, s: Snake, c: Coord)
    requires Capacity.OnBoard(b, s) && Blocked(b, s, s.Head())
    ensures ChokePoint(b, s, c) ==> ComponentPoint(b, s, c)
    ensures Apart(GridGraph(b.width, b.height), FreeCells(b, s), CellIndex(b.width, s.body[0])) ==>
      (ChokePoint(b, s, c) <==> ComponentPoint(b, s, c))
  {
    hide CutVertex, CutsComponent, Apart, FreeCells, Blocked;
    BoardSetting(b, s);
    if b.InBounds(c) {
      IndexInRange(b.width, b.height, c);
      var g, open := GridGraph(b.width, b.height), FreeCells(b, s);
      var root: nat, v: nat := CellIndex(b.width, s.body[0]), CellIndex(b.width, c);
      if CutVertex(g, open, root, v) {
        NoneMissed(g, open, root, v);
      }
      if Apart(g, open, root) {
        ExactWhenApart(g, open, root, v);
      }
    }
  }

  /**
   The choke points in cell order; None for a board without a valid cell count. From a blocked
   head the search reports what cuts up the components next to it.
   */
  method CoreChokePoints(b: Board, id: string) returns (points: Option<seq<Coord>>)
    requires Alive(b, id) && b.width > 0 && b.height > 0 ==> b.InBounds(Lookup(b, id).value.body[0])
    ensures !Alive(b, id) ==> points == Some([])
    ensures Alive(b, id) ==>
      (points == None <==> b.width <= 0 || b.height <= 0 || b.width * b.height > INT_MAX)
    ensures Alive(b, id) && points.Some? && !Blocked(b, Lookup(b, id).value, Lookup(b, id).value.Head()) ==>
      forall c :: c in points.value <==> ChokePoint(b, Lookup(b, id).value, c)
    ensures Alive(b, id) && points.Some? && Blocked(b, Lookup(b, id).value, Lookup(b, id).value.Head()) ==>
      forall c :: c in points.value <==> ComponentPoint(b, Lookup(b, id).value, c)
  {
    var found := Lookup(b, id);
    if found.None? || found.value.body == [] {
      return Some([]);
    }
    if b.width <= 0 || b.height <= 0 || b.width * b.height > INT_MAX {
      return None;
    }
    var s := found.value;
    var width: nat, height: nat := b.width, b.height;
    var g := GridGraph(width, height);
    GridGraphWellFormed(width, height);
    IndexInRange(width, height, s.body[0]);
    var start: nat := CellIndex(width, s.body[0]);
    var blocked := new bool[width * height](_ => false);
    FillMovementBlocks(b, id, blocked);
    var articulation := SearchChokePoints(g, start, blocked);
    ghost var open := Counting.OpenSet(blocked[..]);
    ghost var reports := articulation[..];
    articulation[start] := false;
    var marks := articulation[..];
    points := Some(Collected(width, marks, width * height));
    assert open == FreeCells(b, s);
    forall c
      ensures !Blocked(b, s, s.Head()) ==> (c in points.value <==> ChokePoint(b, s, c))
      ensures Blocked(b, s, s.Head()) ==> (c in points.value <==> ComponentPoint(b, s, c))
    {
      hide CutVertex, CutsComponent;
      BoardSetting(b, s);
      CollectedPoints(b, marks, c);
      if b.InBounds(c) {
        IndexInRange(width, height, c);
        RootIsNone(g, open, start);
        if !Blocked(b, s, s.Head()) {
          ReportsExactly(g, open, start, CellIndex(width, c));
        } else {
          BlockedRootReports(g, open, start, CellIndex(width, c));
        }
      }
    }
  }

  lemma RootIsNone(g: Graph, open: set<nat>, root: nat)
    requires Setting(g, open, root)
    ensures !CutVertex(g, open, root, root)
    ensures root !in open ==> !CutsComponent(g, open, root, root)
  {
    if root !in open {
      forall e: nat ensures !IsEntry(g, open, root, root, e) {
        NoEntry(g, open, root, root, e);
      }
    }
  }

  /** A weak snake on a hazard may be told of a choke point that is none. */
  lemma HeadOnHazardOverReports() returns (b: Board, s: Snake, c: Coord)
    ensures Capacity.OnBoard(b, s) && Lookup(b, s.id) == Some(s) && Blocked(b, s, s.Head())
    ensures ComponentPoint(b, s, c) && !ChokePoint(b, s, c)
  {
    s, c := Snake("a", "a", 1, [Coord(0, 0)], 1), Coord(1, 1);
    b := Board(2, 2, [s], [], [Coord(0, 0)], "standard", 0);
    BlockedRootOverReports();
    var g := GridGraph(2, 2);
    assert g == SQUARE by {
      forall k | 0 <= k < 4 ensures g[k] == SQUARE[k] {
        CellUnique(2, k, k % 2, k / 2);
      }
    }
    assert FreeCells(b, s) == {1, 2, 3};
    BoardSetting(b, s);
    BlockedRootReports(SQUARE, {1, 2, 3}, 0, 3);
  }
}

/**
 How far the prefilter can be trusted: it compares its bound with the recorded length, so a
 fitting command is safe exactly when that length covers the body.
 */
module ShortRecords {
  import opened Grid
  import opened Graphs
  import opened Boards
  import opened Limits
  import opened FloodFill
  import opened Counting
  import opened Capacity
  import opened Prefilter

  /** The command fits for the prefilter, and the engine finds too little room after it. */
  ghost predicate Misleads(b: Board, i: nat, m: Move)
    requires i < |b.snakes|
  {
    && Fits(b, b.snakes[i], m)
    && EngineCapacity(b, b.snakes[i], m) < EngineLength(b, b.snakes[i], m)
  }

  /** A snake with so many segments and so long on record. */
  ghost predicate Recorded(b: Board, i: nat, segments: nat, length: int) {
    i < |b.snakes| && |b.snakes[i].body| == segments && b.snakes[i].length == length && b.width * b.height <= INT_MAX
  }

  /** A row of cells with the whole body stacked on the first one. */
  function Strip(cells: nat, segments: nat, length: int): Board {
    Board(cells, 1, [Snake("a", "a", 100, seq(segments, _ => Coord(0, 0)), length)], [], [], "standard", 0)
  }

  lemma StripStep(cells: nat, c: nat)
    requires c + 1 < cells
    ensures MoveStep(Coord(c, 0), Right) == Coord(c + 1, 0) && Right in DIRECTIONS
    ensures InGrid(cells, 1, Coord(c, 0)) && InGrid(cells, 1, Coord(c + 1, 0))
    ensures CellIndex(cells, Coord(c, 0)) == c && CellIndex(cells, Coord(c + 1, 0)) == c + 1
  {
    assert Right == DIRECTIONS[3];
  }

  /** The flood from the second cell runs along the row. */
  lemma {:induction false} StripReached(cells: nat, c: nat)
    requires 1 <= c < cells
    ensures c in FloodRegion(cells, 1, Coord(1, 0), {Coord(0, 0)})
  {
    hide FloodRegion;
    if c == 1 {
      StripStep(cells, 0);
      FloodStarts(cells, 1, Coord(1, 0), {Coord(0, 0)});
    } else {
      StripReached(cells, c - 1);
      StripStep(cells, c - 1);
      StepIsReachable(cells, 1, Coord(1, 0), {Coord(0, 0)}, Coord(c - 1, 0), Right);
    }
  }

  lemma FloodStarts(width: nat, height: nat, start: Coord, blocked: set<Coord>)
    requires InGrid(width, height, start)
    ensures CellIndex(width, start) in FloodRegion(width, height, start, blocked)
  {
    IndexInRange(width, height, start);
    ReachesSelf(GridGraph(width, height), Unblocked(width, height, blocked), CellIndex(width, start));
  }

  lemma StripFits(cells: nat, segments: nat)
    requires cells >= 2 && segments >= 1
    ensures Fits(Strip(cells, segments, cells - 1), Strip(cells, segments, cells - 1).snakes[0], Right)
  {
    var b := Strip(cells, segments, cells - 1);
    var occupied := OccupiedCells(b) - {Coord(1, 0)};
    assert b.snakes[0].body[0] == Coord(0, 0);
    assert occupied == {Coord(0, 0)};
    var reached := Below(cells) - {0};
    forall c | c in reached ensures c in FloodRegion(cells, 1, Coord(1, 0), occupied) {
      StripReached(cells, c);
    }
    SubsetCount(reached, FloodRegion(cells, 1, Coord(1, 0), occupied));
    assert Below(cells) == reached + {0};
    StripStep(cells, 0);
  }

  lemma StripIsDeficient(cells: nat, segments: nat)
    requires cells >= 2 && segments >= cells && cells <= INT_MAX
    ensures var b := Strip(cells, segments, cells - 1);
            EngineCapacity(b, b.snakes[0], Right) < segments == EngineLength(b, b.snakes[0], Right)
  {
    var b := Strip(cells, segments, cells - 1);
    var s := b.snakes[0];
    StripStep(cells, 0);
    RelaxedRootMoves(b, s, Right);
    var root := RelaxedRoot(b, s, Right);
    var moved := Lookup(root, s.id).value;
    assert moved.body[1] == Coord(0, 0);
    RegionFree(root, moved);
    IndexInRange(cells, 1, Coord(0, 0));
    VerticesBound(GridGraph(cells, 1), Region(root, moved), 0);
  }

  /** A move off the board fits a length that is not positive. */
  lemma WallMisleads(segments: nat, length: int)
    requires segments >= 1 && length <= 0
    ensures Misleads(Strip(1, segments, length), 0, Move.Left)
  {
    var b := Strip(1, segments, length);
    var s := b.snakes[0];
    assert s.body[0] == Coord(0, 0);
    var relaxed, commands := RelaxedBoard(b, s, Move.Left), [Command("a", Move.Left)];
    var ms := Movers(relaxed, commands);
    assert ms[0].dead;
    assert !Survives(ms, 0);
    assert Step(relaxed, commands).snakes == [];
  }

  /** For every body there is a board on which a shorter record misleads. */
  lemma ShortRecordMisleads(segments: nat, length: int) returns (b: Board, m: Move)
    requires 1 <= segments <= INT_MAX && length < segments
    ensures Recorded(b, 0, segments, length) && m != Invalid && Misleads(b, 0, m)
  {
    if length <= 0 {
      b, m := Strip(1, segments, length), Move.Left;
      WallMisleads(segments, length);
    } else {
      b, m := Strip(length + 1, segments, length), Right;
      StripFits(length + 1, segments);
      StripIsDeficient(length + 1, segments);
    }
  }

  /** Fitting commands are safe on all boards exactly when the recorded length covers the body. */
  lemma RecordMustCover(segments: nat, length: int)
    requires 1 <= segments <= INT_MAX
    ensures length >= segments <==>
      forall b: Board, i: nat, m: Move :: Recorded(b, i, segments, length) && m != Invalid ==> !Misleads(b, i, m)
  {
    hide Fits, EngineCapacity, EngineLength;
    if length >= segments {
      forall b: Board, i: nat, m: Move | Recorded(b, i, segments, length) && m != Invalid ensures !Misleads(b, i, m) {
        if Fits(b, b.snakes[i], m) {
          FittingCommandIsNotDeficient(b, i, m);
        }
      }
    } else {
      var b, m := ShortRecordMisleads(segments, length);
    }
  }
}

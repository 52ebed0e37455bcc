/**
 What every run keeps: bodies stay on the board, and no cell is covered twice.
 The space the snakes cover is therefore bounded by the board for ever.
 */
module Occupancy {
  import opened Grid
  import opened Boards
  import Counting

  ghost predicate BodiesInBounds(b: Board) {
    forall i, p :: 0 <= i < |b.snakes| && 0 <= p < |b.snakes[i].body| ==> b.InBounds(b.snakes[i].body[p])
  }

  /** No cell is covered twice, neither by two snakes nor by one. */
  ghost predicate NoOverlap(snakes: seq<Snake>) {
    forall i, p, j, q | 0 <= i < |snakes| && 0 <= p < |snakes[i].body| && 0 <= j < |snakes| && 0 <= q < |snakes[j].body| ::
      snakes[i].body[p] == snakes[j].body[q] ==> i == j && p == q
  }

  ghost predicate WellPlaced(b: Board) {
    BodiesInBounds(b) && NoOverlap(b.snakes)
  }

  /** After its move, a surviving snake covers its target cell and an initial part of its old body. */
  lemma MovedBody(b: Board, commands: seq<Command>, i: nat)
    requires i < |b.snakes| && !Movers(b, commands)[i].dead
    ensures var m, was := Movers(b, commands)[i], b.snakes[i].body;
            && was != [] && m.moved && b.InBounds(m.head)
            && m.snake.body != [] && m.snake.body[0] == m.head
            && |m.snake.body| <= |was| + 1
            && forall p :: 1 <= p < |m.snake.body| ==> m.snake.body[p] == was[p - 1]
  {}

  lemma StandingNotHit(ms: seq<Mover>, i: nat, j: nat, p: nat)
    requires i < |ms| && j < |ms| && Standing(ms, i) && 1 <= p < |ms[j].snake.body|
    ensures ms[j].snake.body[p] != ms[i].head
  {
    if ms[j].snake.body[p] == ms[i].head {
      assert BodyHit(ms, i, j);
      assert HitsBody(ms, i);
    }
  }

  lemma SurvivorHeadsDiffer(ms: seq<Mover>, i: nat, j: nat)
    requires i < |ms| && j < |ms| && Survives(ms, i) && Survives(ms, j) && ms[i].head == ms[j].head
    ensures i == j
  {
    assert !Outmatched(ms, i, j) && !Outmatched(ms, j, i);
  }

  lemma SurvivorsApart(b: Board, commands: seq<Command>, i: nat, p: nat, j: nat, q: nat)
    requires WellPlaced(b) && i < |b.snakes| && j < |b.snakes|
    requires var ms := Movers(b, commands);
             && Survives(ms, i) && Survives(ms, j)
             && p < |ms[i].snake.body| && q < |ms[j].snake.body|
             && ms[i].snake.body[p] == ms[j].snake.body[q]
    ensures i == j && p == q
  {
    var ms := Movers(b, commands);
    MovedBody(b, commands, i);
    MovedBody(b, commands, j);
    if p == 0 && q == 0 {
      SurvivorHeadsDiffer(ms, i, j);
    } else if p == 0 {
      StandingNotHit(ms, i, j, q);
    } else if q == 0 {
      StandingNotHit(ms, j, i, p);
    } else {
      assert b.snakes[i].body[p - 1] == b.snakes[j].body[q - 1];
    }
  }

  /** One joint move, whatever it is, keeps the survivors well placed. */
  lemma StepKeepsPlacement(b: Board, commands: seq<Command>)
    requires WellPlaced(b)
    ensures WellPlaced(Step(b, commands))
  {
    var next := Step(b, commands);
    var ms := Movers(b, commands);
    var kept := Kept(ms, |ms|);
    forall i, p | 0 <= i < |next.snakes| && 0 <= p < |next.snakes[i].body|
      ensures next.InBounds(next.snakes[i].body[p])
    {
      MovedBody(b, commands, kept[i]);
      if p > 0 {
        assert b.InBounds(b.snakes[kept[i]].body[p - 1]);
      }
    }
    forall i, p, j, q |
      0 <= i < |next.snakes| && 0 <= p < |next.snakes[i].body| && 0 <= j < |next.snakes| && 0 <= q < |next.snakes[j].body|
      && next.snakes[i].body[p] == next.snakes[j].body[q]
      ensures i == j && p == q
    {
      SurvivorsApart(b, commands, kept[i], p, kept[j], q);
    }
  }

  /** The board a run of joint moves leads to. */
  ghost function Run(b: Board, run: seq<seq<Command>>): Board {
    if run == [] then b else Step(Run(b, run[..|run| - 1]), run[|run| - 1])
  }

  lemma {:induction false} RunKeepsPlacement(b: Board, run: seq<seq<Command>>)
    requires WellPlaced(b)
    ensures WellPlaced(Run(b, run))
    ensures Run(b, run).width == b.width && Run(b, run).height == b.height
  {
    if run != [] {
      RunKeepsPlacement(b, run[..|run| - 1]);
      StepKeepsPlacement(Run(b, run[..|run| - 1]), run[|run| - 1]);
    }
  }

  function TotalLength(snakes: seq<Snake>): nat {
    if snakes == [] then 0
    else TotalLength(snakes[..|snakes| - 1]) + |snakes[|snakes| - 1].body|
  }

  ghost function Covered(snakes: seq<Snake>): set<Coord> {
    set i, p | 0 <= i < |snakes| && 0 <= p < |snakes[i].body| :: snakes[i].body[p]
  }

  ghost function Cells(body: seq<Coord>): set<Coord> {
    set c | c in body
  }

  lemma {:induction false} DistinctCellsCount(body: seq<Coord>)
    requires forall p, q :: 0 <= p < q < |body| ==> body[p] != body[q]
    ensures |Cells(body)| == |body|
  {
    if body != [] {
      var front, last := body[..|body| - 1], body[|body| - 1];
      DistinctCellsCount(front);
      assert Cells(body) == Cells(front) + {last};
      assert last !in Cells(front);
    }
  }

  lemma LastSnakeApart(snakes: seq<Snake>, q: nat)
    requires NoOverlap(snakes) && snakes != [] && q < |snakes[|snakes| - 1].body|
    ensures snakes[|snakes| - 1].body[q] !in Covered(snakes[..|snakes| - 1])
  {}

  lemma CoveredSplit(snakes: seq<Snake>)
    requires snakes != []
    ensures Covered(snakes) == Covered(snakes[..|snakes| - 1]) + Cells(snakes[|snakes| - 1].body)
  {}

  lemma {:induction false} CoveredCount(snakes: seq<Snake>)
    requires NoOverlap(snakes)
    ensures |Covered(snakes)| == TotalLength(snakes)
  {
    if snakes != [] {
      var front, last := snakes[..|snakes| - 1], snakes[|snakes| - 1];
      CoveredCount(front);
      CoveredSplit(snakes);
      DistinctCellsCount(last.body) by {
        forall p, q | 0 <= p < q < |last.body| ensures last.body[p] != last.body[q] {
          assert snakes[|snakes| - 1].body[p] == last.body[p] && snakes[|snakes| - 1].body[q] == last.body[q];
        }
      }
      forall c | c in Cells(last.body) ensures c !in Covered(front) {
        var q :| 0 <= q < |last.body| && last.body[q] == c;
        LastSnakeApart(snakes, q);
      }
    }
  }

  ghost function Row(width: nat, y: int): set<Coord> {
    set x | 0 <= x < width :: Coord(x, y)
  }

  ghost function BoardCells(width: nat, height: nat): set<Coord> {
    set x, y | 0 <= x < width && 0 <= y < height :: Coord(x, y)
  }

  lemma {:induction false} RowCount(width: nat, y: int)
    ensures |Row(width, y)| == width
  {
    if width > 0 {
      RowCount(width - 1, y);
      assert Row(width, y) == Row(width - 1, y) + {Coord(width - 1, y)};
    }
  }

  lemma RowsAdd(width: nat, rows: nat)
    ensures width * (rows + 1) == width * rows + width
  {}

  lemma {:induction false} BoardCellsCount(width: nat, height: nat)
    ensures |BoardCells(width, height)| == width * height
  {
    if height == 0 {
      assert BoardCells(width, height) == {};
    } else {
      BoardCellsCount(width, height - 1);
      RowCount(width, height - 1);
      assert BoardCells(width, height) == BoardCells(width, height - 1) + Row(width, height - 1);
      RowsAdd(width, height - 1);
    }
  }

  /** However long the run, the snakes alive never cover more than the board. */
  lemma RunFitsOnBoard(b: Board, run: seq<seq<Command>>)
    requires WellPlaced(b) && b.width >= 0 && b.height >= 0
    ensures TotalLength(Run(b, run).snakes) <= b.width * b.height
  {
    RunKeepsPlacement(b, run);
    var last := Run(b, run);
    CoveredCount(last.snakes);
    BoardCellsCount(b.width, b.height);
    forall c | c in Covered(last.snakes) ensures c in BoardCells(b.width, b.height) {
      var i, p :| 0 <= i < |last.snakes| && 0 <= p < |last.snakes[i].body| && last.snakes[i].body[p] == c;
      assert last.InBounds(c);
    }
    Counting.SubsetCount(Covered(last.snakes), BoardCells(b.width, b.height));
  }
}

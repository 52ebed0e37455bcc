/**
 Why going round a proved lasso needs food cells listed once: an item on a cell that is
 listed several times is eaten lap after lap, until the body fills the loop.
 */
module LassoLimits {
  import opened Grid
  import opened Boards
  import opened SoloRuns
  import opened Rounds
  import opened Lasso

  const A: Coord := Coord(0, 0)
  const B: Coord := Coord(1, 0)
  const C: Coord := Coord(1, 1)
  const D: Coord := Coord(0, 1)

  /** A one-segment snake going round a square with four items of food on one cell. */
  function Square(): Setup {
    Setup(Board(2, 2, [], [B, B, B, B], [], "standard", 0), [A], 50, [A, A, B, C, D, A], _ => false)
  }

  /** One step of the replay from a body of one or two segments. */
  lemma OneStep(b: Board, r: Replay, next: Coord)
    requires 1 <= |r.body| <= 2 && b.hazards == []
    ensures var t := After(b, r, next);
            && t.health == r.health - 1 && t.food == Eaten(r.food, next)
            && (|r.body| == 1 && next in r.food ==> t.body == [next, r.body[0]])
            && (|r.body| == 2 && next !in r.food ==> t.body == [next, r.body[0]])
  {}

  lemma SquareFood()
    ensures B in StartReplay(Square()).food && C !in StartReplay(Square()).food && D !in StartReplay(Square()).food
    ensures A !in StartReplay(Square()).food
  {
    assert multiset(Square().board.food) == multiset{B, B, B, B};
  }

  lemma EatenStaysOut(food: multiset<Coord>, next: Coord, c: Coord)
    requires c !in food
    ensures c !in Eaten(food, next)
  {}

  lemma SquareReplay()
    ensures forall k :: 1 <= k <= 5 ==> ReplayAt(Square(), k).health == 51 - k
    ensures ReplayAt(Square(), 2).body == [B, A] && ReplayAt(Square(), 3).body == [C, B]
    ensures ReplayAt(Square(), 4).body == [D, C] && ReplayAt(Square(), 5).body == [A, D]
  {
    hide After, Eaten;
    SquareFood();
    var u := Square();
    var r1, r2, r3, r4 := ReplayAt(u, 1), ReplayAt(u, 2), ReplayAt(u, 3), ReplayAt(u, 4);
    OneStep(u.board, r1, B);
    EatenStaysOut(r1.food, B, C);
    EatenStaysOut(r1.food, B, D);
    EatenStaysOut(r1.food, B, A);
    OneStep(u.board, r2, C);
    EatenStaysOut(r2.food, C, D);
    EatenStaysOut(r2.food, C, A);
    OneStep(u.board, r3, D);
    EatenStaysOut(r3.food, D, A);
    OneStep(u.board, r4, A);
  }

  lemma SquareIsProved()
    ensures Closes(Square(), 5, 1) && Proved(Square(), 5, 1)
  {
    hide ReplayAt;
    SquareReplay();
    var u := Square();
    assert u.path[1] == A && u.path[2] == B && u.path[3] == C && u.path[4] == D && u.path[5] == A;
    assert DistinctHeads(u.path, 1, 5);
    assert OnLoop(u, 5, 1, u.path[1]) && OnLoop(u, 5, 1, u.path[4]);
    assert StepHolds(u, 2) && StepHolds(u, 3) && StepHolds(u, 4) && StepHolds(u, 5);
  }

  /** Three of the four items are left on the loop, which has room for two. */
  lemma SquareOverflows()
    ensures !FoodFits(Square(), 5, 1)
  {
    hide ReplayAt;
    SquareReplay();
    SquareLeft();
    var u := Square();
    var o, food := LassoLoop(u, 5, 1), ReplayAt(u, 5).food;
    assert o.cells == [A, B, C, D];
    assert Items(o.cells, food, 2) >= 3;
    ItemsGrow(o.cells, food, 2, 4);
  }

  lemma SquareLeft()
    ensures ReplayAt(Square(), 5).food[B] == 3
  {
    hide After, Eaten;
    SquareFood();
    SquareReplay();
    var u := Square();
    var r1, r2, r3, r4 := ReplayAt(u, 1), ReplayAt(u, 2), ReplayAt(u, 3), ReplayAt(u, 4);
    assert u.board.food == [B, B, B, B] && multiset(u.board.food)[B] == 4;
    OneStep(u.board, r1, B);
    OneStep(u.board, r2, C);
    OneStep(u.board, r3, D);
    OneStep(u.board, r4, A);
    EatenElsewhere(r1.food, B, B);
    EatenElsewhere(r2.food, C, B);
    EatenElsewhere(r3.food, D, B);
    EatenElsewhere(r4.food, A, B);
  }

  lemma EatenElsewhere(food: multiset<Coord>, next: Coord, c: Coord)
    ensures Eaten(food, next)[c] == if c == next && food[c] > 0 then food[c] - 1 else food[c]
  {}

  lemma {:induction false} ItemsGrow(cells: seq<Coord>, food: multiset<Coord>, m: nat, n: nat)
    requires m <= n <= |cells|
    ensures Items(cells, food, m) <= Items(cells, food, n)
  {
    if m < n {
      ItemsGrow(cells, food, m, n - 1);
    }
  }

  /** The lasso is proved, and in the end the snake runs into itself. */
  lemma RepeatedFoodCollides()
    ensures Closes(Square(), 5, 1) && Proved(Square(), 5, 1) && Connected(Square(), 5) && Ordinary(Square())
    ensures Possible(Square(), 5, 1, FullRun(Square(), 5, 1)) && !AvoidsItself(Square(), FullRun(Square(), 5, 1))
  {
    hide AvoidsItself, FullRun, Possible, Proved;
    SquareIsProved();
    SquareOverflows();
    SquareSteps();
    FullRunIsPossible(Square(), 5, 1);
    LoopOverflows(Square(), 5, 1);
  }

  lemma SquareSteps()
    ensures Connected(Square(), 5)
  {
    var u := Square();
    assert MoveStep(A, Right) == B && MoveStep(B, Up) == C && MoveStep(C, Move.Left) == D && MoveStep(D, Down) == A;
    assert Right in DIRECTIONS && Up in DIRECTIONS && Move.Left in DIRECTIONS && Down in DIRECTIONS;
    assert NextTo(u.path[1], u.path[2]) && NextTo(u.path[2], u.path[3]);
    assert NextTo(u.path[3], u.path[4]) && NextTo(u.path[4], u.path[5]);
  }
}

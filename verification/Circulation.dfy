/**
 What the perimeter certificate is worth: going round the border for any number of turns,
 the snake stays on the board, and never meets its own body exactly when body and items of
 food on the border fit there together and snakes do not grow every turn.
 */
module Circulation {
  import opened Grid
  import opened Boards
  import opened SoloRuns
  import opened Rounds
  import opened Perimeter
  import opened Remainders
  import opened PerimeterCycles

  /** A certified snake: its border, the index of its head and the side its body lies on. */
  datatype Circuit = Circuit(board: Board, snake: Snake, rect: Rect, head: int, ahead: bool)

  ghost predicate Ready(u: Circuit) {
    && FitsBorder(u.board, u.snake.body) && u.rect == Box(u.snake.body, |u.snake.body|)
    && Follows(u.snake.body, u.rect, u.ahead) && u.head == PerimeterIndex(u.snake.body[0], u.rect)
  }

  /** The index of the head after t turns; negative t are the segments behind it. */
  function IndexAt(u: Circuit, t: int): int
    requires u.rect.Proper()
  {
    Slot(u.head, u.ahead, -t) % u.rect.Capacity()
  }

  function HeadAt(u: Circuit, t: int): Coord
    requires u.rect.Proper()
  {
    PerimeterCoord(IndexAt(u, t), u.rect)
  }

  /** The snake moves one step along the border each turn. */
  lemma HeadsAreAdjacent(u: Circuit, t: int)
    requires u.rect.Proper()
    ensures NextTo(HeadAt(u, t), HeadAt(u, t + 1))
  {
    var n := u.rect.Capacity();
    if u.ahead {
      RemainderNext(u.head - (t + 1), n);
      NeighborsAreAdjacent(IndexAt(u, t + 1), u.rect);
    } else {
      RemainderNext(u.head + t, n);
      NeighborsAreAdjacent(IndexAt(u, t), u.rect);
    }
  }

  lemma HeadsInBounds(u: Circuit, t: int)
    requires Ready(u)
    ensures u.board.InBounds(HeadAt(u, t))
  {
    IndexOfCoord(IndexAt(u, t), u.rect);
  }

  ghost predicate MoveFollows(u: Circuit, run: Run, t: nat)
    requires u.rect.Proper()
  {
    run.move(t) != Invalid && t >= 1 && MoveStep(HeadAt(u, t - 1), run.move(t)) == HeadAt(u, t)
  }

  ghost predicate FoodDwindles(u: Circuit, run: Run, t: nat)
    requires u.rect.Proper()
  {
    multiset(run.food(t + 1)) <= Eaten(multiset(run.food(t)), HeadAt(u, t))
  }

  /** The snake circulates; part of the given food is there at first, and none is added. */
  ghost predicate Circulates(u: Circuit, run: Run, food: seq<Coord>)
    requires u.rect.Proper()
  {
    && multiset(run.food(1)) <= multiset(food)
    && forall t: nat :: t >= 1 ==> MoveFollows(u, run, t) && FoodDwindles(u, run, t)
  }

  ghost function SnakeAt(u: Circuit, run: Run, t: nat): (s: Snake)
    requires u.snake.body != []
    ensures s.body != []
  {
    SnakeAfter(u.board, u.snake, run, 0, t)
  }

  ghost predicate AvoidsItself(u: Circuit, run: Run)
    requires u.snake.body != []
  {
    forall t: nat :: var body := SnakeAt(u, run, t).body; body[0] !in body[1..]
  }

  lemma StartsOnBorder(u: Circuit, i: nat)
    requires Ready(u) && i < |u.snake.body|
    ensures u.rect.Proper() && u.snake.body[i] == HeadAt(u, 0 - i)
  {}

  /** The border in the order in which the head visits it. */
  function Border(u: Circuit): (o: Loop)
    requires u.rect.Proper()
    ensures |o.cells| == u.rect.Capacity()
  {
    var n := u.rect.Capacity();
    if u.ahead then Loop(seq(n, i requires 0 <= i < n => PerimeterCoord(n - 1 - i, u.rect)), u.head + 1)
    else Loop(seq(n, i requires 0 <= i < n => PerimeterCoord(i, u.rect)), -u.head)
  }

  lemma BorderIsSimple(u: Circuit)
    requires u.rect.Proper()
    ensures Border(u).Simple()
  {
    var o, n := Border(u), u.rect.Capacity();
    forall i, j | 0 <= i < j < n ensures o.cells[i] != o.cells[j] {
      IndexOfCoord(i, u.rect);
      IndexOfCoord(j, u.rect);
      IndexOfCoord(n - 1 - i, u.rect);
      IndexOfCoord(n - 1 - j, u.rect);
    }
  }

  lemma HeadOnBorder(u: Circuit, t: int)
    requires u.rect.Proper()
    ensures Border(u).At(t) == HeadAt(u, t)
  {
    var n := u.rect.Capacity();
    if u.ahead {
      var a := u.head - t;
      RemainderUnique(-1 - a, n, -1 - a / n, n - 1 - a % n);
    }
  }

  lemma StartTrails(u: Circuit)
    requires Ready(u)
    ensures u.rect.Proper() && Trails(Border(u), u.snake.body, 0)
  {
    hide HeadAt, Border;
    forall i | 0 <= i < |u.snake.body| ensures u.rect.Proper() && u.snake.body[i] == Border(u).At(0 - i) {
      StartsOnBorder(u, i);
      HeadOnBorder(u, 0 - i);
    }
  }

  lemma RunCircles(u: Circuit, run: Run, food: seq<Coord>)
    requires u.rect.Proper() && Circulates(u, run, food)
    ensures Circles(Border(u), run, 0)
  {
    hide HeadAt, Border;
    forall t: nat | t > 0 ensures Rides(Border(u), run, t) && Dwindles(Border(u), run, t) {
      assert MoveFollows(u, run, t) && FoodDwindles(u, run, t);
      HeadOnBorder(u, t);
      HeadOnBorder(u, t - 1);
    }
  }

  /** Items of food on the first n cells of the border. */
  ghost function BorderItems(r: Rect, food: multiset<Coord>, n: nat): nat {
    if n == 0 then 0 else BorderItems(r, food, n - 1) + food[PerimeterCoord(n - 1, r)]
  }

  lemma {:induction false} ItemsInOrder(r: Rect, cells: seq<Coord>, food: multiset<Coord>, n: nat)
    requires n <= |cells| && forall i :: 0 <= i < n ==> cells[i] == PerimeterCoord(i, r)
    ensures Items(cells, food, n) == BorderItems(r, food, n)
  {
    if n > 0 {
      ItemsInOrder(r, cells, food, n - 1);
    }
  }

  lemma {:induction false} ItemsFromBehind(r: Rect, cells: seq<Coord>, food: multiset<Coord>, n: nat)
    requires n <= |cells| && forall i :: 0 <= i < |cells| ==> cells[i] == PerimeterCoord(|cells| - 1 - i, r)
    ensures Items(cells, food, n) + BorderItems(r, food, |cells| - n) == BorderItems(r, food, |cells|)
  {
    if n > 0 {
      ItemsFromBehind(r, cells, food, n - 1);
      assert cells[n - 1] == PerimeterCoord(|cells| - n, r);
    }
  }

  lemma ItemsOnBorder(u: Circuit, food: multiset<Coord>)
    requires u.rect.Proper()
    ensures ItemsOn(Border(u), food) == BorderItems(u.rect, food, u.rect.Capacity())
  {
    var cells, n := Border(u).cells, u.rect.Capacity();
    if u.ahead {
      ItemsFromBehind(u.rect, cells, food, n);
    } else {
      ItemsInOrder(u.rect, cells, food, n);
    }
  }

  lemma {:induction false} BorderItemsMonotone(r: Rect, less: multiset<Coord>, more: multiset<Coord>, n: nat)
    requires less <= more
    ensures BorderItems(r, less, n) <= BorderItems(r, more, n)
  {
    if n > 0 {
      BorderItemsMonotone(r, less, more, n - 1);
    }
  }

  /** Body and items of food on the border have room there together. */
  ghost predicate FoodFits(u: Circuit, food: seq<Coord>)
    requires u.rect.Proper()
  {
    |u.snake.body| + BorderItems(u.rect, multiset(food), u.rect.Capacity()) <= u.rect.Capacity()
  }

  /** At every turn head and body are on the border, and the head is off the body. */
  lemma CirculatesWithRoom(u: Circuit, run: Run, food: seq<Coord>, t: nat)
    requires Ready(u) && !u.board.Constrictor() && FoodFits(u, food) && Circulates(u, run, food)
    ensures var s := SnakeAt(u, run, t);
            && s.body[0] == HeadAt(u, t) && u.board.InBounds(s.body[0]) && s.body[0] !in s.body[1..]
            && |s.body| + BorderItems(u.rect, multiset(run.food(t + 1)), u.rect.Capacity())
            <= |u.snake.body| + BorderItems(u.rect, multiset(food), u.rect.Capacity())
  {
    hide HeadAt, Border, BorderItems, ItemsOn, SnakeAfter;
    var o, n := Border(u), u.rect.Capacity();
    StartTrails(u);
    BorderIsSimple(u);
    RunCircles(u, run, food);
    ItemsOnBorder(u, multiset(run.food(1)));
    ItemsOnBorder(u, multiset(run.food(t + 1)));
    BorderItemsMonotone(u.rect, multiset(run.food(1)), multiset(food), n);
    NeverMeets(o, u.board, u.snake, run, 0, t);
    LengthAndItems(o, u.board, u.snake, run, 0, t);
    HeadOnBorder(u, t);
    HeadsInBounds(u, t);
  }

  /** The food before turn t when none is lost. */
  function FullFood(u: Circuit, food: seq<Coord>, t: nat): seq<Coord>
    requires u.rect.Proper()
  {
    if t <= 1 then food else Without(FullFood(u, food, t - 1), HeadAt(u, t - 1))
  }

  /** The run that loses no food. */
  function FullRun(u: Circuit, food: seq<Coord>): Run
    requires u.rect.Proper()
  {
    Run((t: nat) => FullFood(u, food, t), (t: nat) => if t == 0 then Invalid else MoveTo(HeadAt(u, t - 1), HeadAt(u, t)))
  }

  lemma FullRunGathers(u: Circuit, food: seq<Coord>)
    requires u.rect.Proper()
    ensures Circulates(u, FullRun(u, food), food) && FullRun(u, food).food(1) == food
    ensures Gathers(Border(u), FullRun(u, food), 0)
  {
    hide HeadAt, Border, Eaten, NextTo;
    var run := FullRun(u, food);
    forall t: nat | t >= 1
      ensures MoveFollows(u, run, t) && FoodDwindles(u, run, t) && Rides(Border(u), run, t) && Keeps(Border(u), run, t)
    {
      HeadsAreAdjacent(u, t - 1);
      WithoutIsEaten(FullFood(u, food, t), HeadAt(u, t));
      HeadOnBorder(u, t);
      HeadOnBorder(u, t - 1);
    }
  }

  /**
   A snake along the border can circulate for ever, whatever part of the food is missing, exactly
   when it does not grow every turn and there is room for all the items on the border.
   */
  lemma CirculatesExactly(u: Circuit, food: seq<Coord>)
    requires Ready(u)
    ensures !u.board.Constrictor() && FoodFits(u, food) <==> forall run: Run :: Circulates(u, run, food) ==> AvoidsItself(u, run)
  {
    hide HeadAt, Border, ItemsOn, SnakeAfter, FullRun, Circulates, Ready;
    StartTrails(u);
    BorderIsSimple(u);
    FullRunGathers(u, food);
    var o, full := Border(u), FullRun(u, food);
    ItemsOnBorder(u, multiset(food));
    if u.board.Constrictor() {
      RunCircles(u, full, food);
      var t := GrowingMeets(o, u.board, u.snake, full, 0);
      Met(u, full, t);
    } else if FoodFits(u, food) {
      forall run: Run | Circulates(u, run, food) ensures AvoidsItself(u, run) {
        forall t: nat ensures var body := SnakeAt(u, run, t).body; body[0] !in body[1..] {
          CirculatesWithRoom(u, run, food, t);
        }
      }
    } else {
      var t := MeetsInTheEnd(o, u.board, u.snake, full, 0);
      Met(u, full, t);
    }
  }

  lemma Met(u: Circuit, run: Run, t: nat)
    requires u.snake.body != []
    requires var body := SnakeAfter(u.board, u.snake, run, 0, t).body; body[0] in body[1..]
    ensures !AvoidsItself(u, run)
  {
    var body := SnakeAt(u, run, t).body;
    assert body[0] in body[1..];
  }

  /** Food on the border is counted by the certificate, and no item lies on another. */
  ghost predicate CountedOnly(u: Circuit, now: seq<Coord>, food: seq<Coord>, consumed: Coord) {
    forall c :: c in now && u.rect.OnBorder(c) ==> Counted(food, consumed, c) && multiset(now)[c] == 1
  }

  lemma {:induction false} ItemsCounted(u: Circuit, now: seq<Coord>, food: seq<Coord>, consumed: Coord, n: nat)
    requires u.rect.Proper() && n <= u.rect.Capacity() && CountedOnly(u, now, food, consumed)
    ensures BorderItems(u.rect, multiset(now), n) <= GrowthCells(u.rect, food, consumed, n)
  {
    if n > 0 {
      ItemsCounted(u, now, food, consumed, n - 1);
      IndexOfCoord(n - 1, u.rect);
      var c := PerimeterCoord(n - 1, u.rect);
      assert multiset(now)[c] > 0 ==> c in now;
    }
  }

  /**
   A certified snake can circulate for ever: for every number of turns and whichever counted
   food is present, its head is on the board and off its own body.
   */
  lemma CirculatesForever(u: Circuit, closes: (Coord, int, int) -> bool, run: Run, now: seq<Coord>, food: seq<Coord>,
                          consumed: Coord, t: nat)
    requires Certified(u.board, u.snake.body, closes, food, consumed, u.ahead) && Ready(u) && !u.board.Constrictor()
    requires CountedOnly(u, now, food, consumed) && Circulates(u, run, now)
    ensures var s := SnakeAt(u, run, t);
            && s.body[0] == HeadAt(u, t) && u.board.InBounds(s.body[0]) && s.body[0] !in s.body[1..]
            && |s.body| < u.rect.Capacity()
  {
    hide HeadAt, BorderItems, GrowthCells, Follows, SnakeAt, Circulates;
    ItemsCounted(u, now, food, consumed, u.rect.Capacity());
    CirculatesWithRoom(u, run, now, t);
  }

  function Copies(c: Coord, n: nat): (r: seq<Coord>)
    ensures |r| == n && multiset(r) == multiset{}[c := n]
  {
    if n == 0 then [] else Copies(c, n - 1) + [c]
  }

  lemma {:induction false} SameGrowth(r: Rect, food: seq<Coord>, more: seq<Coord>, consumed: Coord, n: nat)
    requires forall c :: c in food <==> c in more
    ensures GrowthCells(r, food, consumed, n) == GrowthCells(r, more, consumed, n)
  {
    if n > 0 {
      SameGrowth(r, food, more, consumed, n - 1);
    }
  }

  lemma {:induction false} ItemsThere(r: Rect, food: multiset<Coord>, i: nat, n: nat)
    requires i < n
    ensures BorderItems(r, food, n) >= food[PerimeterCoord(i, r)]
  {
    if i < n - 1 {
      ItemsThere(r, food, i, n - 1);
    }
  }

  /**
   The certificate looks at cells, not at items: with enough copies of a counted item the same
   snake is still certified, and there is a run on which it meets itself.
   */
  lemma CertificateCountsCells(u: Circuit, closes: (Coord, int, int) -> bool, food: seq<Coord>, consumed: Coord, c: Coord)
    returns (more: seq<Coord>, run: Run)
    requires Ready(u) && Certified(u.board, u.snake.body, closes, food, consumed, u.ahead)
    requires u.rect.OnBorder(c) && Counted(food, consumed, c)
    ensures (forall d :: d in food <==> d in more) && Certified(u.board, u.snake.body, closes, more, consumed, u.ahead)
    ensures Circulates(u, run, more) && !AvoidsItself(u, run)
  {
    hide HeadAt, BorderItems, GrowthCells, Follows, SnakeAt, Circulates, AvoidsItself;
    var n := u.rect.Capacity();
    more := food + Copies(c, n);
    assert forall d :: d in Copies(c, n) ==> d in multiset(Copies(c, n));
    SameGrowth(u.rect, food, more, consumed, n);
    CoordOfIndex(c, u.rect);
    ItemsThere(u.rect, multiset(more), PerimeterIndex(c, u.rect), n);
    assert multiset(more) == multiset(food) + multiset(Copies(c, n));
    CirculatesExactly(u, more);
    assert !FoodFits(u, more);
    run :| Circulates(u, run, more) && !AvoidsItself(u, run);
  }

  /** The arrival time in the certificate, less one, is the turn on which the head comes to the cell. */
  lemma ArrivalIsTurn(u: Circuit, index: int)
    requires u.rect.Proper() && 0 <= index < u.rect.Capacity() && 0 <= u.head < u.rect.Capacity()
    ensures IndexAt(u, OwnArrival(u.head, u.ahead, index, u.rect.Capacity()) - 1) == index
  {
    var n := u.rect.Capacity();
    if u.ahead {
      var d := (u.head - index + n) % n;
      RemainderUnique(u.head - index + n, n, if u.head >= index then 1 else 0, if u.head >= index then u.head - index else u.head - index + n);
      RemainderUnique(u.head - d, n, if u.head >= index then 0 else -1, index);
    } else {
      var d := (index - u.head + n) % n;
      RemainderUnique(index - u.head + n, n, if index >= u.head then 1 else 0, if index >= u.head then index - u.head else index - u.head + n);
      RemainderUnique(u.head + d, n, if index >= u.head then 0 else 1, index);
    }
  }
}

/**
 A bounded lasso: a route of heads that closes a loop, replayed once with every food item
 eaten and no health gained. What that one replay proves about all the ways in which part
 of the food may be missing, and about going round the loop forever.
 */
module Lasso {
  import opened Grid
  import opened Boards
  import opened SoloRuns
  import opened Rounds

  /** The snake to replay; its head is at path[1], and closed(k) says rivals may contest step k. */
  datatype Setup = Setup(board: Board, body: seq<Coord>, health: int, path: seq<Coord>, closed: nat -> bool)

  /** The body with all food eaten, the health without any, and the food left. */
  datatype Replay = Replay(body: seq<Coord>, health: int, food: multiset<Coord>)

  function Cost(b: Board, c: Coord): int {
    1 + if c in b.hazards then b.hazardDamage else 0
  }

  function After(b: Board, r: Replay, next: Coord): (t: Replay)
    requires r.body != []
    ensures |t.body| == |r.body| + (if next in r.food then 1 else 0)
  {
    Replay(BodyAfter(r.body, next, next in r.food), r.health - Cost(b, next), Eaten(r.food, next))
  }

  /** Food under the head is taken to be eaten already. */
  function StartReplay(u: Setup): Replay
    requires |u.path| > 1
  {
    Replay(u.body, u.health, multiset(u.board.food)[u.path[1] := 0])
  }

  function ReplayAt(u: Setup, k: nat): (r: Replay)
    requires u.body != [] && 1 <= k < |u.path|
    ensures |r.body| >= |u.body|
  {
    if k == 1 then StartReplay(u) else After(u.board, ReplayAt(u, k - 1), u.path[k])
  }

  predicate StepHolds(u: Setup, k: nat)
    requires u.body != [] && 2 <= k < |u.path|
  {
    var r := ReplayAt(u, k);
    && u.board.InBounds(u.path[k]) && !u.closed(k) && r.health > 0 && u.path[k] !in r.body[1..]
  }

  predicate DistinctHeads(path: seq<Coord>, from: nat, to: nat) {
    to <= |path| && forall i, j :: from <= i < j < to ==> path[i] != path[j]
  }

  /** The loop is long enough for the body and does not cross itself. */
  predicate LoopFits(u: Setup, depth: nat, loopStart: nat) {
    depth - loopStart > |u.body| && DistinctHeads(u.path, loopStart, depth)
  }

  predicate OnLoop(u: Setup, depth: nat, loopStart: nat, c: Coord)
    requires depth <= |u.path|
  {
    exists k :: loopStart <= k < depth && u.path[k] == c
  }

  /** At the end the longest body lies on the loop and leaves a loop cell free. */
  predicate Resident(u: Setup, depth: nat, loopStart: nat)
    requires u.body != [] && 1 <= depth < |u.path|
  {
    var body := ReplayAt(u, depth).body;
    |body| < depth - loopStart && forall i :: 0 <= i < |body| ==> OnLoop(u, depth, loopStart, body[i])
  }

  ghost predicate Proved(u: Setup, depth: nat, loopStart: nat)
    requires u.body != [] && 1 <= loopStart <= depth < |u.path|
  {
    && LoopFits(u, depth, loopStart) && Resident(u, depth, loopStart)
    && forall k :: 2 <= k <= depth ==> StepHolds(u, k)
  }

  /** The route starts at the head and returns to the place where the loop starts. */
  ghost predicate Closes(u: Setup, depth: nat, loopStart: nat) {
    && u.body != [] && 1 <= loopStart < depth < |u.path|
    && u.path[1] == u.body[0] && u.path[depth] == u.path[loopStart]
  }

  /** The head at step k, round and round the loop after the route ends. */
  function HeadAt(u: Setup, depth: nat, loopStart: nat, k: nat): Coord
    requires loopStart < depth < |u.path|
  {
    if k <= depth then u.path[k] else HeadAt(u, depth, loopStart, k - (depth - loopStart))
  }

  lemma {:induction false} HeadsRepeat(u: Setup, depth: nat, loopStart: nat, k: nat)
    requires Closes(u, depth, loopStart) && k >= loopStart
    ensures HeadAt(u, depth, loopStart, k + depth - loopStart) == HeadAt(u, depth, loopStart, k)
  {}

  /** Every head is on the board. */
  lemma {:induction false} HeadsInBounds(u: Setup, depth: nat, loopStart: nat, k: nat)
    requires Closes(u, depth, loopStart) && Proved(u, depth, loopStart) && k >= 2
    ensures u.board.InBounds(HeadAt(u, depth, loopStart, k))
    decreases k
  {
    if k > depth {
      HeadsInBounds(u, depth, loopStart, k - (depth - loopStart));
    } else {
      assert StepHolds(u, k);
    }
  }

  ghost predicate MoveFollows(u: Setup, depth: nat, loopStart: nat, run: Run, k: nat)
    requires loopStart < depth < |u.path| && k >= 1
  {
    && run.move(k) != Invalid
    && MoveStep(HeadAt(u, depth, loopStart, k - 1), run.move(k)) == HeadAt(u, depth, loopStart, k)
  }

  ghost predicate FoodDwindles(u: Setup, depth: nat, loopStart: nat, run: Run, k: nat)
    requires loopStart < depth < |u.path|
  {
    multiset(run.food(k + 1)) <= Eaten(multiset(run.food(k)), HeadAt(u, depth, loopStart, k))
  }

  /** The moves follow the heads; food is never added, and what is eaten is gone. */
  ghost predicate Possible(u: Setup, depth: nat, loopStart: nat, run: Run)
    requires loopStart < depth < |u.path| && 1 < |u.path|
  {
    && multiset(run.food(2)) <= StartReplay(u).food
    && forall k: nat :: k >= 2 ==> MoveFollows(u, depth, loopStart, run, k) && FoodDwindles(u, depth, loopStart, run, k)
  }

  ghost function BoardAt(u: Setup, run: Run, k: nat): Board {
    u.board.(food := run.food(k))
  }

  function FirstSnake(u: Setup): Snake { Snake("", "", u.health, u.body, |u.body|) }

  /** The snake after step k of the run. */
  ghost function SnakeAt(u: Setup, run: Run, k: nat): (s: Snake)
    requires u.body != [] && k >= 1
    ensures s.body != []
  {
    SnakeAfter(u.board, FirstSnake(u), run, 1, k)
  }

  lemma SnakeMoves(u: Setup, run: Run, k: nat)
    requires u.body != [] && k >= 1
    ensures SnakeAt(u, run, 1) == FirstSnake(u)
    ensures k > 1 ==> SnakeAt(u, run, k) == MovedSnake(BoardAt(u, run, k), SnakeAt(u, run, k - 1), run.move(k))
  {
    hide MovedSnake;
  }

  ghost predicate PrefixOf(a: seq<Coord>, b: seq<Coord>) {
    |a| <= |b| && a == b[..|a|]
  }

  lemma PrefixStep(a: seq<Coord>, b: seq<Coord>, next: Coord, grows: bool, grows': bool)
    requires a != [] && PrefixOf(a, b) && (grows ==> grows')
    ensures PrefixOf(BodyAfter(a, next, grows), BodyAfter(b, next, grows'))
  {
    var a', b' := BodyAfter(a, next, grows), BodyAfter(b, next, grows');
    forall i | 0 <= i < |a'| ensures a'[i] == b'[i] {
      if i > 0 {
        assert a'[i] == a[i - 1] && b'[i] == b[i - 1];
      }
    }
  }

  ghost predicate Ordinary(u: Setup) {
    u.health <= 100 && u.board.hazardDamage >= -1 && !u.board.Constrictor()
  }

  /** One step with part of the food, next to one step of the replay. */
  lemma StepBelow(b: Board, food: seq<Coord>, s: Snake, r: Replay, m: Move, next: Coord)
    requires s.body != [] && PrefixOf(s.body, r.body) && r.health <= s.health && r.health <= 100
    requires multiset(food) <= r.food && MoveStep(s.body[0], m) == next
    requires b.hazardDamage >= -1 && !b.Constrictor()
    ensures var t, q := MovedSnake(b.(food := food), s, m), After(b, r, next);
            && PrefixOf(t.body, q.body) && t.body[0] == next && q.health <= t.health && q.health <= 100
            && Eaten(multiset(food), next) <= q.food
  {
    PrefixStep(s.body, r.body, next, next in food, next in r.food);
  }

  /** Up to the end of the route: the real food is part of the replay's, the real body a prefix of its body. */
  lemma {:induction false} RunBelowReplay(u: Setup, depth: nat, loopStart: nat, run: Run, k: nat)
    requires Closes(u, depth, loopStart) && Possible(u, depth, loopStart, run) && Ordinary(u) && 1 <= k <= depth
    ensures multiset(run.food(k + 1)) <= ReplayAt(u, k).food
    ensures PrefixOf(SnakeAt(u, run, k).body, ReplayAt(u, k).body)
    ensures SnakeAt(u, run, k).body[0] == u.path[k]
    ensures ReplayAt(u, k).health <= SnakeAt(u, run, k).health && ReplayAt(u, k).health <= 100
  {
    hide MovedSnake, SnakeAt, After, PrefixOf, Eaten;
    SnakeMoves(u, run, k);
    if k == 1 {
      assert PrefixOf(u.body, u.body) by {
        PrefixSelf(u.body);
      }
    } else {
      RunBelowReplay(u, depth, loopStart, run, k - 1);
      assert MoveFollows(u, depth, loopStart, run, k) && FoodDwindles(u, depth, loopStart, run, k);
      StepBelow(u.board, run.food(k), SnakeAt(u, run, k - 1), ReplayAt(u, k - 1), run.move(k), u.path[k]);
    }
  }

  lemma PrefixSelf(a: seq<Coord>)
    ensures PrefixOf(a, a)
  {}

  /** A prefix keeps clear of what the whole keeps clear of. */
  lemma PrefixClear(a: seq<Coord>, b: seq<Coord>, c: Coord)
    requires PrefixOf(a, b) && a != [] && c !in b[1..]
    ensures c !in a[1..]
  {
    assert forall i :: 1 <= i < |a| ==> a[i] == b[1..][i - 1];
  }

  /** Whatever part of the food is missing, the route is free of wall, starvation, hazard and self-body deaths. */
  lemma RouteIsSurvivable(u: Setup, depth: nat, loopStart: nat, run: Run, k: nat)
    requires Closes(u, depth, loopStart) && Proved(u, depth, loopStart)
    requires Possible(u, depth, loopStart, run) && Ordinary(u) && 2 <= k <= depth
    ensures var m := Advance(BoardAt(u, run, k), SnakeAt(u, run, k - 1), run.move(k));
            && !m.dead && m.snake == SnakeAt(u, run, k) && m.head == u.path[k] && m.head !in m.snake.body[1..]
            && PrefixOf(m.snake.body, ReplayAt(u, k).body)
  {
    hide MovedSnake, SnakeAt, PrefixOf, ReplayAt;
    assert MoveFollows(u, depth, loopStart, run, k);
    SnakeMoves(u, run, k);
    RunBelowReplay(u, depth, loopStart, run, k);
    assert StepHolds(u, k);
    PrefixClear(SnakeAt(u, run, k).body, ReplayAt(u, k).body, u.path[k]);
  }

  lemma FirstHead(u: Setup, depth: nat, loopStart: nat)
    requires Closes(u, depth, loopStart)
    ensures HeadAt(u, depth, loopStart, 1) == u.body[0]
  {}

  /** A body trails the heads of its run. */
  lemma {:induction false} BodyTrailsHeads(u: Setup, depth: nat, loopStart: nat, run: Run, k: nat, i: nat)
    requires Closes(u, depth, loopStart) && Possible(u, depth, loopStart, run) && k >= 1
    requires i < k && i < |SnakeAt(u, run, k).body|
    ensures SnakeAt(u, run, k).body[i] == HeadAt(u, depth, loopStart, k - i)
  {
    hide MovedSnake, SnakeAt, HeadAt;
    SnakeMoves(u, run, k);
    if k == 1 {
      FirstHead(u, depth, loopStart);
    } else {
      BodyTrailsHeads(u, depth, loopStart, run, k - 1, 0);
      assert MoveFollows(u, depth, loopStart, run, k);
      BodyShifts(BoardAt(u, run, k), SnakeAt(u, run, k - 1), run.move(k));
      if i > 0 {
        BodyTrailsHeads(u, depth, loopStart, run, k - 1, i - 1);
      }
    }
  }

  function LassoLoop(u: Setup, depth: nat, loopStart: nat): Loop
    requires loopStart <= depth <= |u.path|
  {
    Loop(u.path[loopStart..depth], loopStart)
  }

  lemma LoopIsSimple(u: Setup, depth: nat, loopStart: nat)
    requires Closes(u, depth, loopStart) && LoopFits(u, depth, loopStart)
    ensures LassoLoop(u, depth, loopStart).Simple()
  {}

  /** After its start the route goes round the loop. */
  lemma {:induction false} HeadsOnLoop(u: Setup, depth: nat, loopStart: nat, k: nat)
    requires Closes(u, depth, loopStart) && k >= loopStart
    ensures LassoLoop(u, depth, loopStart).At(k) == HeadAt(u, depth, loopStart, k)
    decreases k
  {
    hide Loop.At;
    var o := LassoLoop(u, depth, loopStart);
    if k >= depth {
      HeadsOnLoop(u, depth, loopStart, k - (depth - loopStart));
      AtRepeats(o, k);
    } else {
      AtPlace(o, k - loopStart);
    }
  }

  lemma RunCircles(u: Setup, depth: nat, loopStart: nat, run: Run)
    requires Closes(u, depth, loopStart) && Possible(u, depth, loopStart, run)
    ensures Circles(LassoLoop(u, depth, loopStart), run, depth)
  {
    hide HeadAt;
    var o := LassoLoop(u, depth, loopStart);
    forall k: nat | k > depth ensures Rides(o, run, k) && Dwindles(o, run, k) {
      assert MoveFollows(u, depth, loopStart, run, k) && FoodDwindles(u, depth, loopStart, run, k);
      HeadsOnLoop(u, depth, loopStart, k);
      HeadsOnLoop(u, depth, loopStart, k - 1);
    }
  }

  /** When the route ends, the body lies on the loop behind the head. */
  lemma TrailsAtEnd(u: Setup, depth: nat, loopStart: nat, run: Run)
    requires Closes(u, depth, loopStart) && Possible(u, depth, loopStart, run)
    requires |SnakeAt(u, run, depth).body| <= depth - loopStart
    ensures Trails(LassoLoop(u, depth, loopStart), SnakeAt(u, run, depth).body, depth)
  {
    hide SnakeAt, HeadAt, Possible;
    var o, body := LassoLoop(u, depth, loopStart), SnakeAt(u, run, depth).body;
    forall i | 0 <= i < |body| ensures body[i] == o.At(depth - i) {
      BodyTrailsHeads(u, depth, loopStart, run, depth, i);
      HeadsOnLoop(u, depth, loopStart, depth - i);
    }
  }

  /** At the end of the replay the body and the food left on the loop fit on the loop together. */
  ghost predicate FoodFits(u: Setup, depth: nat, loopStart: nat)
    requires u.body != [] && 1 <= loopStart <= depth < |u.path|
  {
    var r := ReplayAt(u, depth);
    |r.body| + ItemsOn(LassoLoop(u, depth, loopStart), r.food) <= depth - loopStart
  }

  /**
   Going round the loop for any number of steps, whichever food the run started with: the
   snake never leaves the board and never runs into its own body.
   */
  lemma LoopsForever(u: Setup, depth: nat, loopStart: nat, run: Run, k: nat)
    requires Closes(u, depth, loopStart) && Proved(u, depth, loopStart) && FoodFits(u, depth, loopStart)
    requires Possible(u, depth, loopStart, run) && Ordinary(u) && k >= 2
    ensures var s := SnakeAt(u, run, k);
            && s.body[0] == HeadAt(u, depth, loopStart, k) && u.board.InBounds(s.body[0]) && s.body[0] !in s.body[1..]
  {
    hide SnakeAt, ReplayAt, Possible, PrefixOf, ItemsOn;
    BodyTrailsHeads(u, depth, loopStart, run, k, 0);
    HeadsInBounds(u, depth, loopStart, k);
    if k <= depth {
      RouteIsSurvivable(u, depth, loopStart, run, k);
      Landed(u, run, k);
    } else {
      var o, s := LassoLoop(u, depth, loopStart), SnakeAt(u, run, depth);
      RunBelowReplay(u, depth, loopStart, run, depth);
      PrefixIsShorter(s.body, ReplayAt(u, depth).body);
      ItemsMonotone(o.cells, multiset(run.food(depth + 1)), ReplayAt(u, depth).food, |o.cells|);
      FitsLess(o, multiset(run.food(depth + 1)), ReplayAt(u, depth).food);
      LoopIsSimple(u, depth, loopStart);
      TrailsAtEnd(u, depth, loopStart, run);
      RunCircles(u, depth, loopStart, run);
      NeverMeets(o, u.board, s, run, depth, k);
      Resumed(u, run, depth, k);
    }
  }

  lemma Landed(u: Setup, run: Run, k: nat)
    requires u.body != [] && k >= 2
    ensures var m := Advance(BoardAt(u, run, k), SnakeAt(u, run, k - 1), run.move(k));
            m.moved ==> m.head == SnakeAt(u, run, k).body[0]
  {
    hide SnakeAt, MovedSnake;
    SnakeMoves(u, run, k);
  }

  lemma FitsLess(o: Loop, less: multiset<Coord>, more: multiset<Coord>)
    requires Items(o.cells, less, |o.cells|) <= Items(o.cells, more, |o.cells|)
    ensures ItemsOn(o, less) <= ItemsOn(o, more)
  {}

  lemma PrefixIsShorter(a: seq<Coord>, b: seq<Coord>)
    requires PrefixOf(a, b)
    ensures |a| <= |b|
  {}

  lemma Resumed(u: Setup, run: Run, middle: nat, k: nat)
    requires u.body != [] && 1 <= middle <= k
    ensures SnakeAt(u, run, k) == SnakeAfter(u.board, SnakeAt(u, run, middle), run, middle, k)
  {
    SnakeLater(u.board, FirstSnake(u), run, 1, middle, k);
  }

  /** What a replay has visited it has eaten, and it never gains food. */
  lemma {:induction false} VisitedIsEaten(u: Setup, k: nat, j: nat)
    requires u.body != [] && 1 <= j <= k < |u.path| && SingleFood(u.board)
    ensures u.path[j] !in ReplayAt(u, k).food
    ensures forall c :: ReplayAt(u, k).food[c] <= 1
  {
    hide After;
    if k > 1 {
      VisitedIsEaten(u, k - 1, if j < k then j else 1);
      AfterFood(u.board, ReplayAt(u, k - 1), u.path[k]);
    }
  }

  lemma AfterFood(b: Board, r: Replay, next: Coord)
    requires r.body != [] && forall c :: r.food[c] <= 1
    ensures next !in After(b, r, next).food
    ensures forall c :: After(b, r, next).food[c] <= r.food[c]
  {
    hide BodyAfter;
  }

  /** Food cells listed once are empty after the route, so nothing more has to fit. */
  lemma SingleFoodFits(u: Setup, depth: nat, loopStart: nat)
    requires Closes(u, depth, loopStart) && Proved(u, depth, loopStart) && SingleFood(u.board)
    ensures FoodFits(u, depth, loopStart)
  {
    hide ReplayAt;
    var o := LassoLoop(u, depth, loopStart);
    forall i | 0 <= i < |o.cells| ensures o.cells[i] !in ReplayAt(u, depth).food {
      VisitedIsEaten(u, depth, loopStart + i);
    }
    NoItems(o.cells, ReplayAt(u, depth).food, |o.cells|);
  }

  lemma {:induction false} NoItems(cells: seq<Coord>, food: multiset<Coord>, n: nat)
    requires n <= |cells| && forall i :: 0 <= i < |cells| ==> cells[i] !in food
    ensures Items(cells, food, n) == 0
  {
    if n > 0 {
      NoItems(cells, food, n - 1);
    }
  }

  /** Each head is one step from the one before. */
  ghost predicate Connected(u: Setup, depth: nat)
    requires depth < |u.path|
  {
    forall k :: 2 <= k <= depth ==> NextTo(u.path[k - 1], u.path[k])
  }

  lemma {:induction false} HeadsConnected(u: Setup, depth: nat, loopStart: nat, k: nat)
    requires Closes(u, depth, loopStart) && Connected(u, depth) && k >= 2
    ensures NextTo(HeadAt(u, depth, loopStart, k - 1), HeadAt(u, depth, loopStart, k))
    decreases k
  {
    hide NextTo;
    var lap := depth - loopStart;
    if k > depth {
      HeadsRepeat(u, depth, loopStart, k - 1 - lap);
      HeadsConnected(u, depth, loopStart, k - lap);
    }
  }

  /** The items that do not lie on the cell. */
  function Elsewhere(food: seq<Coord>, c: Coord): seq<Coord> {
    if food == [] then [] else (if food[0] == c then [] else [food[0]]) + Elsewhere(food[1..], c)
  }

  lemma {:induction false} ElsewhereItems(food: seq<Coord>, c: Coord)
    ensures multiset(Elsewhere(food, c)) == multiset(food)[c := 0]
  {
    if food != [] {
      ElsewhereItems(food[1..], c);
      assert food == [food[0]] + food[1..];
      assert multiset(food) == multiset{food[0]} + multiset(food[1..]);
    }
  }

  /** The food before step k when none is lost. */
  function FullFood(u: Setup, depth: nat, loopStart: nat, k: nat): seq<Coord>
    requires 1 <= loopStart < depth < |u.path|
  {
    if k <= 2 then Elsewhere(u.board.food, u.path[1])
    else Without(FullFood(u, depth, loopStart, k - 1), HeadAt(u, depth, loopStart, k - 1))
  }

  function FullMove(u: Setup, depth: nat, loopStart: nat, k: nat): Move
    requires 1 <= loopStart < depth < |u.path|
  {
    if k == 0 then Invalid else MoveTo(HeadAt(u, depth, loopStart, k - 1), HeadAt(u, depth, loopStart, k))
  }

  /** The run that loses no food. */
  function FullRun(u: Setup, depth: nat, loopStart: nat): Run
    requires 1 <= loopStart < depth < |u.path|
  {
    Run((k: nat) => FullFood(u, depth, loopStart, k), (k: nat) => FullMove(u, depth, loopStart, k))
  }

  lemma FullStep(u: Setup, depth: nat, loopStart: nat, k: nat)
    requires Closes(u, depth, loopStart) && Connected(u, depth) && k >= 2
    ensures var run := FullRun(u, depth, loopStart);
            && MoveFollows(u, depth, loopStart, run, k) && FoodDwindles(u, depth, loopStart, run, k)
            && multiset(run.food(k + 1)) == Eaten(multiset(run.food(k)), HeadAt(u, depth, loopStart, k))
  {
    hide HeadAt, Eaten;
    HeadsConnected(u, depth, loopStart, k);
    WithoutIsEaten(FullFood(u, depth, loopStart, k), HeadAt(u, depth, loopStart, k));
  }

  lemma FullRunIsPossible(u: Setup, depth: nat, loopStart: nat)
    requires Closes(u, depth, loopStart) && Connected(u, depth)
    ensures Possible(u, depth, loopStart, FullRun(u, depth, loopStart))
  {
    hide MoveFollows, FoodDwindles;
    ElsewhereItems(u.board.food, u.path[1]);
    forall k: nat | k >= 2
      ensures MoveFollows(u, depth, loopStart, FullRun(u, depth, loopStart), k)
           && FoodDwindles(u, depth, loopStart, FullRun(u, depth, loopStart), k)
    {
      FullStep(u, depth, loopStart, k);
    }
  }

  /** The run that loses no food does what the replay does. */
  lemma {:induction false} FullRunIsReplay(u: Setup, depth: nat, loopStart: nat, k: nat)
    requires Closes(u, depth, loopStart) && Connected(u, depth) && !u.board.Constrictor() && 1 <= k <= depth
    ensures var run := FullRun(u, depth, loopStart);
            && SnakeAt(u, run, k).body == ReplayAt(u, k).body && multiset(run.food(k + 1)) == ReplayAt(u, k).food
    decreases k
  {
    hide Eaten, SnakeAt, MovedSnake, FullRun, HeadAt, Possible, After;
    var run := FullRun(u, depth, loopStart);
    SnakeMoves(u, run, k);
    if k == 1 {
      FullStart(u, depth, loopStart);
      ElsewhereItems(u.board.food, u.path[1]);
    } else {
      FullRunIsReplay(u, depth, loopStart, k - 1);
      FullStep(u, depth, loopStart, k);
      FullRunIsPossible(u, depth, loopStart);
      BodyTrailsHeads(u, depth, loopStart, run, k - 1, 0);
      RouteHead(u, depth, loopStart, k);
      RouteHead(u, depth, loopStart, k - 1);
      SameBodies(u.board, run.food(k), SnakeAt(u, run, k - 1), ReplayAt(u, k - 1), run.move(k), u.path[k]);
    }
  }

  lemma FullStart(u: Setup, depth: nat, loopStart: nat)
    requires 1 <= loopStart < depth < |u.path|
    ensures FullRun(u, depth, loopStart).food(2) == Elsewhere(u.board.food, u.path[1])
  {}

  lemma RouteHead(u: Setup, depth: nat, loopStart: nat, k: nat)
    requires loopStart < depth < |u.path| && k <= depth
    ensures HeadAt(u, depth, loopStart, k) == u.path[k]
  {}

  lemma SameBodies(b: Board, food: seq<Coord>, s: Snake, r: Replay, m: Move, next: Coord)
    requires s.body != [] && s.body == r.body && multiset(food) == r.food && MoveStep(s.body[0], m) == next && !b.Constrictor()
    ensures MovedSnake(b.(food := food), s, m).body == After(b, r, next).body
    ensures After(b, r, next).food == Eaten(r.food, next)
  {
    assert next in food <==> next in multiset(food);
  }

  ghost predicate AvoidsItself(u: Setup, run: Run)
    requires u.body != []
  {
    forall k: nat :: k >= 2 ==> var body := SnakeAt(u, run, k).body; body[0] !in body[1..]
  }

  /** Food that does not fit makes the snake meet itself in the end. */
  lemma LoopOverflows(u: Setup, depth: nat, loopStart: nat)
    requires Closes(u, depth, loopStart) && Proved(u, depth, loopStart) && Connected(u, depth)
    requires !u.board.Constrictor() && !FoodFits(u, depth, loopStart)
    ensures !AvoidsItself(u, FullRun(u, depth, loopStart))
  {
    hide SnakeAt, ReplayAt, Possible, ItemsOn, FullRun;
    var o, run := LassoLoop(u, depth, loopStart), FullRun(u, depth, loopStart);
    FullRunIsPossible(u, depth, loopStart);
    FullRunIsReplay(u, depth, loopStart, depth);
    var s := SnakeAt(u, run, depth);
    LoopIsSimple(u, depth, loopStart);
    TrailsAtEnd(u, depth, loopStart, run);
    FullRunGathers(u, depth, loopStart);
    var k := MeetsInTheEnd(o, u.board, s, run, depth);
    Resumed(u, run, depth, k);
    var body := SnakeAt(u, run, k).body;
    assert body[0] in body[1..];
  }

  lemma FullRunGathers(u: Setup, depth: nat, loopStart: nat)
    requires Closes(u, depth, loopStart) && Connected(u, depth)
    ensures Gathers(LassoLoop(u, depth, loopStart), FullRun(u, depth, loopStart), depth)
  {
    hide HeadAt, FullRun, Possible;
    var o, run := LassoLoop(u, depth, loopStart), FullRun(u, depth, loopStart);
    FullRunIsPossible(u, depth, loopStart);
    RunCircles(u, depth, loopStart, run);
    forall k: nat | k > depth ensures Rides(o, run, k) && Keeps(o, run, k) {
      assert Rides(o, run, k);
      FullStep(u, depth, loopStart, k);
      HeadsOnLoop(u, depth, loopStart, k);
    }
  }

  /** On a constrictor board the body still covers the place where the loop started. */
  lemma ConstrictorMeets(u: Setup, depth: nat, loopStart: nat, run: Run)
    requires Closes(u, depth, loopStart) && Possible(u, depth, loopStart, run) && u.board.Constrictor()
    ensures var body := SnakeAt(u, run, depth).body; body[0] in body[1..]
  {
    hide SnakeAt, Possible, HeadAt;
    ConstrictorGrows(u, run, depth);
    var body := SnakeAt(u, run, depth).body;
    BodyTrailsHeads(u, depth, loopStart, run, depth, 0);
    BodyTrailsHeads(u, depth, loopStart, run, depth, depth - loopStart);
    RouteHeads(u, depth, loopStart);
    assert body[depth - loopStart] == body[1..][depth - loopStart - 1];
  }

  lemma RouteHeads(u: Setup, depth: nat, loopStart: nat)
    requires Closes(u, depth, loopStart)
    ensures HeadAt(u, depth, loopStart, depth) == HeadAt(u, depth, loopStart, loopStart)
  {}

  lemma {:induction false} ConstrictorGrows(u: Setup, run: Run, k: nat)
    requires u.body != [] && u.board.Constrictor() && k >= 1
    ensures |SnakeAt(u, run, k).body| == |u.body| + k - 1
  {
    hide MovedSnake, SnakeAt;
    SnakeMoves(u, run, k);
    if k > 1 {
      ConstrictorGrows(u, run, k - 1);
      BodyShifts(BoardAt(u, run, k), SnakeAt(u, run, k - 1), run.move(k));
    }
  }

  /**
   A proved lasso can be followed for ever, whatever part of the food is missing, exactly when
   snakes do not grow every turn and the food left on the loop after one replay fits there.
   */
  lemma LoopsForeverExactly(u: Setup, depth: nat, loopStart: nat)
    requires Closes(u, depth, loopStart) && Proved(u, depth, loopStart) && Connected(u, depth)
    requires u.health <= 100 && u.board.hazardDamage >= -1
    ensures !u.board.Constrictor() && FoodFits(u, depth, loopStart) <==>
      forall run: Run :: Possible(u, depth, loopStart, run) ==> AvoidsItself(u, run)
  {
    hide Possible, Proved, SnakeAt, FullRun, HeadAt;
    FullRunIsPossible(u, depth, loopStart);
    if u.board.Constrictor() {
      ConstrictorMeets(u, depth, loopStart, FullRun(u, depth, loopStart));
    } else if FoodFits(u, depth, loopStart) {
      forall run: Run | Possible(u, depth, loopStart, run) ensures AvoidsItself(u, run) {
        forall k: nat | k >= 2 ensures var body := SnakeAt(u, run, k).body; body[0] !in body[1..] {
          LoopsForever(u, depth, loopStart, run, k);
        }
      }
    } else {
      LoopOverflows(u, depth, loopStart);
    }
  }

  /** The step is survived on its own, whatever rivals do. */
  ghost predicate StepSurvived(u: Setup, run: Run, k: nat)
    requires u.body != [] && k >= 2
  {
    var m := Advance(BoardAt(u, run, k), SnakeAt(u, run, k - 1), run.move(k));
    !m.dead && m.head !in m.snake.body[1..]
  }

  /** The route of a proved lasso is survivable for all ways of losing food exactly when snakes do not grow every turn. */
  lemma RouteSurvivableExactly(u: Setup, depth: nat, loopStart: nat)
    requires Closes(u, depth, loopStart) && Proved(u, depth, loopStart) && Connected(u, depth)
    requires u.health <= 100 && u.board.hazardDamage >= -1
    ensures !u.board.Constrictor() <==>
      forall run: Run, k: nat :: Possible(u, depth, loopStart, run) && 2 <= k <= depth ==> StepSurvived(u, run, k)
  {
    hide Possible, Proved, SnakeAt, FullRun, HeadAt, MovedSnake, PrefixOf, ReplayAt;
    if u.board.Constrictor() {
      var run := FullRun(u, depth, loopStart);
      FullRunIsPossible(u, depth, loopStart);
      ConstrictorMeets(u, depth, loopStart, run);
      SnakeMoves(u, run, depth);
      Landed(u, run, depth);
      assert !StepSurvived(u, run, depth);
    } else {
      forall run: Run, k: nat | Possible(u, depth, loopStart, run) && 2 <= k <= depth ensures StepSurvived(u, run, k) {
        RouteIsSurvivable(u, depth, loopStart, run, k);
      }
    }
  }
}

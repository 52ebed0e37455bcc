/**
 The engine's one-step safety test and what it is worth: a step judged safe
 survives the joint move whatever valid moves the other snakes choose.
 */
module SafeMoves {
  import opened Grid
  import opened Boards
  import opened Optional
  import opened Occupancy
  import CloneStep

  predicate CanEatNextTurn(b: Board, s: Snake) {
    s.body != [] && exists m | m in DIRECTIONS :: MoveStep(s.Head(), m) in b.food
  }

  /** The tail of s is expected to leave its cell when the snake named id steps to c. */
  predicate TailVacates(b: Board, s: Snake, c: Coord, id: string) {
    && s.body != [] && !b.Constrictor()
    && (if s.id == id then c !in b.food else !CanEatNextTurn(b, s))
  }

  ghost predicate OnBody(b: Board, c: Coord) {
    exists i, p :: 0 <= i < |b.snakes| && 0 <= p < |b.snakes[i].body| && b.snakes[i].body[p] == c
  }

  ghost predicate OnVacatingTail(b: Board, c: Coord, id: string) {
    exists i :: 0 <= i < |b.snakes| && TailVacates(b, b.snakes[i], c, id)
             && b.snakes[i].body[|b.snakes[i].body| - 1] == c
  }

  predicate HazardFatal(b: Board, s: Snake, c: Coord) {
    c in b.hazards && c !in b.food && HazardKills(b, s)
  }

  predicate Threatens(other: Snake, s: Snake, c: Coord) {
    && other.id != s.id && other.body != []
    && other.EffectiveLength() >= s.EffectiveLength()
    && exists m | m in DIRECTIONS :: MoveStep(other.Head(), m) == c
  }

  ghost predicate Contested(b: Board, s: Snake, c: Coord) {
    exists i :: 0 <= i < |b.snakes| && Threatens(b.snakes[i], s, c)
  }

  ghost predicate SafeTarget(b: Board, c: Coord, id: string) {
    var s := Lookup(b, id);
    && s.Some? && b.InBounds(c)
    && !(OnBody(b, c) && !OnVacatingTail(b, c, id))
    && !HazardFatal(b, s.value, c)
    && !Contested(b, s.value, c)
  }

  /** All body cells, snake by snake. */
  method Occupied(b: Board) returns (cells: seq<Coord>)
    ensures forall c :: c in cells <==> OnBody(b, c)
  {
    cells := [];
    for i := 0 to |b.snakes|
      invariant forall c :: c in cells <==>
        exists x, p :: 0 <= x < i && 0 <= p < |b.snakes[x].body| && b.snakes[x].body[p] == c
    {
      ghost var before := cells;
      cells := cells + b.snakes[i].body;
      forall c ensures c in cells <==>
        exists x, p :: 0 <= x < i + 1 && 0 <= p < |b.snakes[x].body| && b.snakes[x].body[p] == c
      {
        assert c in cells <==> c in before || c in b.snakes[i].body;
        if c in b.snakes[i].body {
          var p :| 0 <= p < |b.snakes[i].body| && b.snakes[i].body[p] == c;
        }
      }
    }
  }

  method VacatingTails(b: Board, c: Coord, id: string) returns (tails: seq<Coord>)
    ensures c in tails <==> OnVacatingTail(b, c, id)
  {
    tails := [];
    for i := 0 to |b.snakes|
      invariant c in tails <==>
        exists x :: 0 <= x < i && TailVacates(b, b.snakes[x], c, id) && b.snakes[x].body[|b.snakes[x].body| - 1] == c
    {
      var other := b.snakes[i];
      if other.body == [] || b.Constrictor() {
      } else if other.id == id {
        if c !in b.food {
          tails := tails + [other.body[|other.body| - 1]];
        }
      } else if !CanEatNextTurn(b, other) {
        tails := tails + [other.body[|other.body| - 1]];
      }
    }
  }

  method IsSafe(b: Board, c: Coord, id: string) returns (safe: bool)
    ensures safe <==> SafeTarget(b, c, id)
  {
    var found := Lookup(b, id);
    if found.None? || !b.InBounds(c) {
      return false;
    }
    var snake := found.value;
    var occupied := Occupied(b);
    var tails := VacatingTails(b, c, id);
    if c in occupied && c !in tails {
      return false;
    }
    if c in b.hazards && c !in b.food && HazardKills(b, snake) {
      return false;
    }
    for i := 0 to |b.snakes|
      invariant forall x :: 0 <= x < i ==> !Threatens(b.snakes[x], snake, c)
    {
      var other := b.snakes[i];
      if other.id != id && other.body != [] {
        for m := 0 to 4
          invariant forall k :: 0 <= k < m ==>
            !(MoveStep(other.Head(), DIRECTIONS[k]) == c && other.EffectiveLength() >= snake.EffectiveLength())
        {
          if c == MoveStep(other.Head(), DIRECTIONS[m]) && other.EffectiveLength() >= snake.EffectiveLength() {
            assert DIRECTIONS[m] in DIRECTIONS;
            assert Threatens(other, snake, c);
            assert Contested(b, snake, c);
            return false;
          }
        }
      }
    }
    safe := true;
  }

  /** The safe directions in engine order. */
  ghost function SafeDirections(b: Board, id: string, n: nat): (r: seq<Move>)
    requires n <= 4 && Lookup(b, id).Some?
    ensures |r| <= n
    ensures forall m :: m in r <==> m in DIRECTIONS[..n] && SafeTarget(b, MoveStep(Lookup(b, id).value.Head(), m), id)
  {
    if n == 0 then []
    else SafeDirections(b, id, n - 1)
         + (if SafeTarget(b, MoveStep(Lookup(b, id).value.Head(), DIRECTIONS[n - 1]), id) then [DIRECTIONS[n - 1]] else [])
  }

  method SafeMoveList(b: Board, id: string) returns (moves: seq<Move>)
    ensures moves == if Alive(b, id) then SafeDirections(b, id, 4) else []
  {
    var found := Lookup(b, id);
    if found.None? || found.value.body == [] {
      return [];
    }
    moves := [];
    for n := 0 to 4
      invariant moves == SafeDirections(b, id, n)
    {
      var safe := IsSafe(b, MoveStep(found.value.Head(), DIRECTIONS[n]), id);
      if safe {
        moves := moves + [DIRECTIONS[n]];
      }
    }
  }

  /** Nothing else on the board answers to this snake's id. */
  ghost predicate UniquelyNamed(b: Board, i: nat) {
    i < |b.snakes| && forall j :: 0 <= j < |b.snakes| && b.snakes[j].id == b.snakes[i].id ==> j == i
  }

  ghost predicate LengthsRecorded(b: Board) {
    forall j :: 0 <= j < |b.snakes| ==> b.snakes[j].length == |b.snakes[j].body|
  }

  /** Every snake is given one of the four directions. */
  ghost predicate AllCommanded(b: Board, commands: seq<Command>) {
    forall j :: 0 <= j < |b.snakes| ==> MoveFor(b.snakes[j].id, commands) != Invalid
  }

  /** A fair situation for snake i to step to c. Bodies may be stacked and may even overlap. */
  ghost predicate Stepping(b: Board, commands: seq<Command>, i: nat, c: Coord) {
    && UniquelyNamed(b, i) && b.snakes[i].body != []
    && LengthsRecorded(b) && b.hazardDamage >= 0
    && AllCommanded(b, commands)
    && c == MoveStep(b.snakes[i].Head(), MoveFor(b.snakes[i].id, commands))
  }

  /** Some body covers the cell with a segment other than its last one. */
  ghost predicate OnTrunk(b: Board, c: Coord) {
    exists j, p :: 0 <= j < |b.snakes| && 0 <= p < |b.snakes[j].body| - 1 && b.snakes[j].body[p] == c
  }

  /** The snake grows with its command, so that its last segment stays where it is. */
  ghost predicate TailStays(b: Board, commands: seq<Command>, j: nat)
    requires j < |b.snakes| && b.snakes[j].body != []
  {
    Grows(b, MoveStep(b.snakes[j].body[0], MoveFor(b.snakes[j].id, commands)))
  }

  ghost predicate OnStayingTail(b: Board, commands: seq<Command>, c: Coord) {
    exists j :: 0 <= j < |b.snakes| && TailAt(b, j, c) && TailStays(b, commands, j)
  }

  predicate TailAt(b: Board, j: nat, c: Coord)
    requires j < |b.snakes|
  {
    b.snakes[j].body != [] && b.snakes[j].body[|b.snakes[j].body| - 1] == c
  }

  lemma LookupUnique(b: Board, i: nat)
    requires UniquelyNamed(b, i)
    ensures Lookup(b, b.snakes[i].id) == Some(b.snakes[i])
  {}

  /** After the move the cells behind the heads are the trunks, and the tails of the snakes that grow. */
  lemma MovedBody(b: Board, commands: seq<Command>, j: nat, k: int)
    requires AllCommanded(b, commands) && j < |b.snakes| && b.snakes[j].body != []
    ensures var now, body := Movers(b, commands)[j].snake.body, b.snakes[j].body;
            && |now| == |body| + (if TailStays(b, commands, j) then 1 else 0)
            && (1 <= k < |now| ==> now[k] == body[k - 1])
  {}

  lemma HitMeansCovered(b: Board, commands: seq<Command>, i: nat, c: Coord)
    requires Stepping(b, commands, i, c)
    ensures HitsBody(Movers(b, commands), i) <==> OnTrunk(b, c) || OnStayingTail(b, commands, c)
  {
    hide TailStays, Advance, MoveFor;
    var ms := Movers(b, commands);
    LookupUnique(b, i);
    HeadMoves(b, commands, i, c);
    if HitsBody(ms, i) {
      var j, k :| 0 <= j < |ms| && 1 <= k < |ms[j].snake.body| && ms[j].snake.body[k] == c;
      EmptyStays(b, commands, j);
      MovedBody(b, commands, j, k);
      assert k == |b.snakes[j].body| ==> TailAt(b, j, c);
    }
    if OnTrunk(b, c) {
      var j, p :| 0 <= j < |b.snakes| && 0 <= p < |b.snakes[j].body| - 1 && b.snakes[j].body[p] == c;
      MovedBody(b, commands, j, p + 1);
      assert BodyHit(ms, i, j);
    }
    if OnStayingTail(b, commands, c) {
      var j :| 0 <= j < |b.snakes| && TailAt(b, j, c) && TailStays(b, commands, j);
      MovedBody(b, commands, j, |b.snakes[j].body|);
      assert BodyHit(ms, i, j);
    }
  }

  lemma HeadMoves(b: Board, commands: seq<Command>, i: nat, c: Coord)
    requires Stepping(b, commands, i, c)
    ensures Movers(b, commands)[i].head == c
  {}

  lemma EmptyStays(b: Board, commands: seq<Command>, j: nat)
    requires j < |b.snakes| && Movers(b, commands)[j].snake.body != []
    ensures b.snakes[j].body != []
  {}

  /** A rival that could reach c is strictly shorter, and on c both snakes grow alike. */
  lemma SafeTargetNotOutmatched(b: Board, commands: seq<Command>, i: nat, c: Coord)
    requires Stepping(b, commands, i, c) && SafeTarget(b, c, b.snakes[i].id)
    ensures !LosesHeadToHead(Movers(b, commands), i)
  {
    var ms := Movers(b, commands);
    LookupUnique(b, i);
    forall j | 0 <= j < |ms| && j != i && Standing(ms, j) && ms[j].head == ms[i].head
      ensures ms[j].snake.EffectiveLength() < ms[i].snake.EffectiveLength()
    {
      var m := MoveFor(b.snakes[j].id, commands);
      assert m in DIRECTIONS && MoveStep(b.snakes[j].Head(), m) == c;
      assert !Threatens(b.snakes[j], b.snakes[i], c);
      assert |b.snakes[j].body| < |b.snakes[i].body|;
    }
  }

  /**
   Soundness of the safety test, with its exact limits: a step judged safe survives an assignment
   of directions to the other snakes precisely when the snake has a point of health to spend or
   eats on arrival, and the cell is under no body but for tails that leave it.
   */
  lemma SafeStepSurvives(b: Board, commands: seq<Command>, i: nat, c: Coord)
    requires Stepping(b, commands, i, c) && SafeTarget(b, c, b.snakes[i].id)
    ensures Survives(Movers(b, commands), i) <==>
      (b.snakes[i].health >= 2 || c in b.food) && !OnTrunk(b, c) && !OnStayingTail(b, commands, c)
  {
    LookupUnique(b, i);
    HitMeansCovered(b, commands, i, c);
    SafeTargetNotOutmatched(b, commands, i, c);
    hide HitsBody, LosesHeadToHead, OnTrunk, OnStayingTail;
  }

  /** Different snakes lie on different cells; a body may be stacked. */
  ghost predicate SnakesApart(b: Board) {
    forall j, l, p, q :: 0 <= j < l < |b.snakes| && 0 <= p < |b.snakes[j].body| && 0 <= q < |b.snakes[l].body| ==>
      b.snakes[j].body[p] != b.snakes[l].body[q]
  }

  /** A tail that the test expects to leave its cell does leave it, whatever direction its snake takes. */
  lemma VacatingTailLeaves(b: Board, commands: seq<Command>, i: nat, c: Coord, j: nat)
    requires Stepping(b, commands, i, c) && j < |b.snakes| && TailVacates(b, b.snakes[j], c, b.snakes[i].id)
    ensures !TailStays(b, commands, j)
  {
    var m := MoveFor(b.snakes[j].id, commands);
    if j != i {
      assert m in DIRECTIONS;
      assert MoveStep(b.snakes[j].Head(), m) !in b.food;
    }
  }

  lemma SafeTargetNotOnTail(b: Board, commands: seq<Command>, i: nat, c: Coord)
    requires Stepping(b, commands, i, c) && SafeTarget(b, c, b.snakes[i].id) && SnakesApart(b)
    ensures !OnStayingTail(b, commands, c)
  {
    hide TailStays, SafeTarget, TailVacates, MoveFor;
    if OnStayingTail(b, commands, c) {
      var j :| 0 <= j < |b.snakes| && TailAt(b, j, c) && TailStays(b, commands, j);
      var t := VacatingTail(b, c, b.snakes[i].id, j);
      VacatingTailLeaves(b, commands, i, c, t);
    }
  }

  /** A safe target under a tail is under a tail expected to leave, which is the same one. */
  lemma VacatingTail(b: Board, c: Coord, id: string, j: nat) returns (t: nat)
    requires SafeTarget(b, c, id) && SnakesApart(b) && j < |b.snakes| && TailAt(b, j, c)
    ensures t == j && TailVacates(b, b.snakes[t], c, id)
  {
    assert OnBody(b, c);
    t :| 0 <= t < |b.snakes| && b.snakes[t].body != [] && TailVacates(b, b.snakes[t], c, id)
      && b.snakes[t].body[|b.snakes[t].body| - 1] == c;
  }

  /**
   With different snakes on different cells the limit can be read off the board: a safe step
   survives every assignment of directions exactly with health 2 or food on the target, and when
   the target lies on no body but for its last segment.
   */
  lemma SafeStepExactly(b: Board, commands: seq<Command>, i: nat, c: Coord)
    requires Stepping(b, commands, i, c) && SafeTarget(b, c, b.snakes[i].id) && SnakesApart(b)
    ensures Survives(Movers(b, commands), i) <==> (b.snakes[i].health >= 2 || c in b.food) && !OnTrunk(b, c)
  {
    hide OnStayingTail, OnTrunk, Survives, Movers, SafeTarget, SnakesApart, Stepping;
    SafeStepSurvives(b, commands, i, c);
    SafeTargetNotOnTail(b, commands, i, c);
  }

  /** Where no body is stacked, health alone decides. */
  lemma SafeTargetNotOnTrunk(b: Board, c: Coord, id: string)
    requires SafeTarget(b, c, id) && NoOverlap(b.snakes)
    ensures !OnTrunk(b, c) && SnakesApart(b)
  {
    assert OnTrunk(b, c) ==> OnBody(b, c);
  }

  /** A tail stacked under another segment is judged to vacate, and a step onto it is fatal. */
  lemma StackedTailIsFatal() returns (b: Board, commands: seq<Command>, c: Coord)
    ensures Stepping(b, commands, 0, c) && SafeTarget(b, c, b.snakes[0].id) && SnakesApart(b)
    ensures b.snakes[0].health >= 2 && !Survives(Movers(b, commands), 0)
  {
    c := Coord(1, 0);
    var s := Snake("a", "a", 100, [Coord(0, 0), c, c], 3);
    b, commands := Board(2, 1, [s], [], [], "standard", 0), [Command("a", Right)];
    assert s.body[1] == c && s.body[2] == c;
    assert "standard"[0] != "constrictor"[0];
    assert TailVacates(b, b.snakes[0], c, "a");
    assert OnVacatingTail(b, c, "a") && OnTrunk(b, c);
    SafeStepExactly(b, commands, 0, c);
  }

  lemma SurvivorIsAlive(b: Board, commands: seq<Command>, i: nat)
    requires UniquelyNamed(b, i) && Survives(Movers(b, commands), i)
    ensures Alive(Step(b, commands), b.snakes[i].id)
  {}

  /** In the engine's terms: the snake is on the next board, with a body, in both implementations. */
  lemma SafeMoveKeepsSnakeAlive(b: Board, commands: seq<Command>, i: nat, c: Coord)
    requires Stepping(b, commands, i, c) && SafeTarget(b, c, b.snakes[i].id)
    requires (b.snakes[i].health >= 2 || c in b.food) && !OnTrunk(b, c) && !OnStayingTail(b, commands, c)
    ensures Alive(Step(b, commands), b.snakes[i].id)
    ensures Alive(CloneStep.CloneSpec(b, commands), b.snakes[i].id)
  {
    SafeStepSurvives(b, commands, i, c);
    SurvivorIsAlive(b, commands, i);
  }
}

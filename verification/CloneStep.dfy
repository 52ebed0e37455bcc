/**
 The copying implementation of a joint move: the next board is assembled from
 copies of the moved snakes. It agrees with the specification on snakes, order
 and hazards always, and on food exactly when no eaten cell is listed twice.
 */
module CloneStep {
  import opened Grid
  import opened Boards
  import opened HeadToHead

  /** Some snake moved onto c. */
  ghost predicate Covered(ms: seq<Mover>, c: Coord) {
    exists i :: 0 <= i < |ms| && ms[i].moved && ms[i].head == c
  }

  /** The first f food items, without those a snake moved onto. */
  ghost function FoodUncovered(food: seq<Coord>, ms: seq<Mover>, f: nat): (r: seq<Coord>)
    requires f <= |food|
  {
    if f == 0 then []
    else FoodUncovered(food, ms, f - 1) + (if Covered(ms, food[f - 1]) then [] else [food[f - 1]])
  }

  /** Food at f is on a cell a snake moved onto, but an earlier item lists that cell too. */
  ghost predicate DuplicateEaten(food: seq<Coord>, ms: seq<Mover>, f: nat)
    requires f < |food|
  {
    Covered(ms, food[f]) && exists g :: 0 <= g < f && food[g] == food[f]
  }

  lemma EatenItemVersusCovered(food: seq<Coord>, ms: seq<Mover>, f: nat)
    requires f < |food|
    ensures EatenItem(food, ms, |ms|, f) <==> Covered(ms, food[f]) && !DuplicateEaten(food, ms, f)
  {}

  lemma {:induction false} FoodVersions(food: seq<Coord>, ms: seq<Mover>, f: nat)
    requires f <= |food|
    ensures |FoodUncovered(food, ms, f)| <= |FoodLeft(food, ms, f)|
    ensures FoodUncovered(food, ms, f) == FoodLeft(food, ms, f) <==>
            forall g :: 0 <= g < f ==> !DuplicateEaten(food, ms, g)
    ensures (exists g :: 0 <= g < f && DuplicateEaten(food, ms, g)) ==>
              |FoodUncovered(food, ms, f)| < |FoodLeft(food, ms, f)|
  {
    if f > 0 {
      FoodVersions(food, ms, f - 1);
      EatenItemVersusCovered(food, ms, f - 1);
    }
  }

  ghost function CloneSpec(b: Board, commands: seq<Command>): Board {
    Step(b, commands).(food := FoodUncovered(b.food, Movers(b, commands), |b.food|))
  }

  /**
   The two implementations agree exactly when no food cell that a snake moves onto
   is listed twice; on boards with distinct food they always agree.
   */
  lemma CloneAgreesWithStep(b: Board, commands: seq<Command>)
    ensures CloneSpec(b, commands) == Step(b, commands) <==>
            forall f, g :: 0 <= g < f < |b.food| && b.food[g] == b.food[f] ==> !Covered(Movers(b, commands), b.food[f])
  {
    var ms := Movers(b, commands);
    FoodVersions(b.food, ms, |b.food|);
    assert CloneSpec(b, commands) == Step(b, commands) <==>
           FoodUncovered(b.food, ms, |b.food|) == FoodLeft(b.food, ms, |b.food|);
    if f, g :| 0 <= g < f < |b.food| && b.food[g] == b.food[f] && Covered(ms, b.food[f]) {
      assert DuplicateEaten(b.food, ms, f);
    }
  }

  ghost predicate Describes(ms: seq<Mover>, next: seq<Snake>, heads: seq<Coord>) {
    && |next| == |ms| == |heads|
    && forall i :: 0 <= i < |ms| ==> next[i] == ms[i].snake && (ms[i].moved ==> heads[i] == ms[i].head)
  }

  /** The snakes that are not dead, in order. */
  method CollectSurvivors(ghost ms: seq<Mover>, next: seq<Snake>, dead: array<bool>) returns (snakes: seq<Snake>)
    requires |ms| == |next| == dead.Length && forall i :: 0 <= i < |ms| ==> next[i] == ms[i].snake
    requires forall i :: 0 <= i < |ms| ==> (dead[i] <==> !Survives(ms, i))
    ensures snakes == Survivors(ms, |ms|)
  {
    hide Survives;
    snakes := [];
    for i := 0 to |next|
      invariant snakes == Survivors(ms, i)
    {
      if !dead[i] {
        snakes := snakes + [next[i]];
      }
    }
  }

  lemma StoppedAreDead(b: Board, commands: seq<Command>)
    ensures forall i :: 0 <= i < |b.snakes| && !Movers(b, commands)[i].moved ==> Movers(b, commands)[i].dead
  {}

  method CloneAndApply(b: Board, commands: seq<Command>) returns (resolved: Board)
    ensures resolved == CloneSpec(b, commands)
  {
    hide Movers, Survivors, Survives;
    var n := |b.snakes|;
    var newHeads := new Coord[n](_ => Coord(0, 0));
    var dead := new bool[n](_ => false);
    var movedFlags := new bool[n](_ => false);
    ghost var ms := Movers(b, commands);

    var next := AdvanceAll(b, commands, newHeads, dead, movedFlags);
    StoppedAreDead(b, commands);
    ResolveBodies(ms, next, newHeads, dead);
    ResolveHeads(ms, next, newHeads, dead);
    var snakes := CollectSurvivors(ms, next, dead);
    var food := CollectFood(b, ms, newHeads, movedFlags);
    resolved := b.(snakes := snakes, food := food);
  }

  /** A copy of one snake moved one step, with its health. */
  method MoveCopy(b: Board, snake: Snake, move: Move) returns (moved: Snake)
    requires snake.body != [] && move != Invalid
    ensures moved == MovedSnake(b, snake, move)
  {
    var newHead := MoveStep(snake.Head(), move);
    var health := snake.health - 1;
    if newHead in b.hazards {
      health := health - b.hazardDamage;
    }
    var ateFood := newHead in b.food;
    var grew := ateFood || b.Constrictor();
    if ateFood {
      health := 100;
    }
    var newBody := [newHead] + (if grew then snake.body else snake.body[..|snake.body| - 1]);
    moved := Snake(snake.id, snake.name, health, newBody, |newBody|);
  }

  method AdvanceAll(b: Board, commands: seq<Command>,
                    newHeads: array<Coord>, dead: array<bool>, movedFlags: array<bool>)
    returns (next: seq<Snake>)
    requires newHeads.Length == dead.Length == movedFlags.Length == |b.snakes| && dead != movedFlags
    requires forall j :: 0 <= j < |b.snakes| ==> !dead[j] && !movedFlags[j]
    modifies newHeads, dead, movedFlags
    ensures Describes(Movers(b, commands), next, newHeads[..])
    ensures forall j :: 0 <= j < |next| ==> dead[j] == Movers(b, commands)[j].dead
    ensures forall j :: 0 <= j < |next| ==> movedFlags[j] == Movers(b, commands)[j].moved
  {
    ghost var ms := Movers(b, commands);
    next := [];
    for i := 0 to |b.snakes|
      invariant |next| == i
      invariant forall j :: 0 <= j < i ==> next[j] == ms[j].snake && dead[j] == ms[j].dead && movedFlags[j] == ms[j].moved
      invariant forall j :: 0 <= j < i && ms[j].moved ==> newHeads[j] == ms[j].head
      invariant forall j :: i <= j < |b.snakes| ==> !dead[j] && !movedFlags[j]
    {
      var snake := b.snakes[i];
      var move := MoveFor(snake.id, commands);
      if move == Invalid || snake.body == [] {
        dead[i] := true;
        next := next + [snake];
      } else {
        var moved := MoveCopy(b, snake, move);
        newHeads[i] := moved.body[0];
        movedFlags[i] := true;
        next := next + [moved];
        if !b.InBounds(moved.body[0]) || moved.health <= 0 {
          dead[i] := true;
        }
      }
    }
  }

  method CollectFood(b: Board, ghost ms: seq<Mover>, newHeads: array<Coord>, movedFlags: array<bool>)
    returns (food: seq<Coord>)
    requires |ms| == newHeads.Length == movedFlags.Length
    requires forall j :: 0 <= j < |ms| ==> movedFlags[j] == ms[j].moved && (ms[j].moved ==> newHeads[j] == ms[j].head)
    ensures food == FoodUncovered(b.food, ms, |b.food|)
  {
    food := [];
    for f := 0 to |b.food|
      invariant food == FoodUncovered(b.food, ms, f)
    {
      var eaten := false;
      var j := 0;
      while j < movedFlags.Length && !eaten
        invariant 0 <= j <= movedFlags.Length
        invariant eaten ==> Covered(ms, b.food[f])
        invariant !eaten ==> forall i :: 0 <= i < j ==> !(ms[i].moved && ms[i].head == b.food[f])
        decreases movedFlags.Length - j, !eaten
      {
        if movedFlags[j] && newHeads[j] == b.food[f] {
          eaten := true;
        } else {
          j := j + 1;
        }
      }
      if !eaten {
        food := food + [b.food[f]];
      }
    }
  }

  method ResolveBodies(ghost ms: seq<Mover>, next: seq<Snake>, newHeads: array<Coord>, dead: array<bool>)
    requires Describes(ms, next, newHeads[..]) && dead.Length == |ms|
    requires forall i :: 0 <= i < |ms| && !ms[i].moved ==> ms[i].dead
    requires forall i :: 0 <= i < |ms| ==> dead[i] == ms[i].dead
    modifies dead
    ensures forall i :: 0 <= i < |ms| ==> (dead[i] <==> !Standing(ms, i))
  {
    for i := 0 to |next|
      invariant forall x :: 0 <= x < i ==> (dead[x] <==> !Standing(ms, x))
      invariant forall x :: i <= x < |ms| ==> dead[x] == ms[x].dead
    {
      label Row:
      if !dead[i] {
        var head := newHeads[i];
        for j := 0 to |next|
          invariant dead[i] <==> exists y :: 0 <= y < j && BodyHit(ms, i, y)
          invariant forall x :: 0 <= x < |ms| && x != i ==> dead[x] == old@Row(dead[x])
        {
          var other := next[j].body;
          ghost var before := dead[i];
          var k := 1;
          while k < |other|
            invariant 1 <= k && (k <= |other| || other == [])
            invariant dead[i] <==> before || exists p :: 1 <= p < k && p < |other| && other[p] == head
            invariant forall x :: 0 <= x < |ms| && x != i ==> dead[x] == old@Row(dead[x])
          {
            if head == other[k] {
              dead[i] := true;
            }
            k := k + 1;
          }
          assert (exists p :: 1 <= p < k && p < |other| && other[p] == head) <==> BodyHit(ms, i, j);
        }
      }
    }
  }

  method ResolveHeads(ghost ms: seq<Mover>, next: seq<Snake>, newHeads: array<Coord>, dead: array<bool>)
    requires Describes(ms, next, newHeads[..]) && dead.Length == |ms|
    requires forall i :: 0 <= i < |ms| && !ms[i].moved ==> ms[i].dead
    requires forall i :: 0 <= i < |ms| ==> (dead[i] <==> !Standing(ms, i))
    modifies dead
    ensures forall i :: 0 <= i < |ms| ==> (dead[i] <==> !Survives(ms, i))
  {
    PassStarts(ms, dead[..]);
    for i := 0 to |next|
      invariant PassAt(ms, dead[..], i, i + 1)
    {
      if dead[i] {
        PassSkipsRow(ms, dead[..], i);
      } else {
        for j := i + 1 to |next|
          invariant PassAt(ms, dead[..], i, j)
        {
          if dead[j] || newHeads[i] != newHeads[j] {
            PassSkipsPair(ms, dead[..], i, j);
          } else {
            PassComparesPair(ms, dead[..], i, j);
            ghost var after := Compared(dead[..], ms[i].snake.EffectiveLength(), ms[j].snake.EffectiveLength(), i, j);
            var left, right := next[i].EffectiveLength(), next[j].EffectiveLength();
            if left > right {
              dead[j] := true;
            } else if right > left {
              dead[i] := true;
            } else {
              dead[i] := true;
              dead[j] := true;
            }
            assert dead[..] == after;
          }
        }
        PassNextRow(ms, dead[..], i);
      }
    }
    PassEnds(ms, dead[..]);
  }
}

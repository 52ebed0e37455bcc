/**
 Boards as values and one simultaneous move of all snakes, stated declaratively.
 Both implementations of the move, the in-place make/unmake and the
 clone-and-apply, are proved against the definitions of this module.
 */
module Boards {
  import opened Grid
  import opened Optional

  datatype Snake = Snake(id: string, name: string, health: int, body: seq<Coord>, length: int) {
    /** A snake without body reports the origin as its head. */
    function Head(): Coord {
      if body == [] then Coord(0, 0) else body[0]
    }

    /** The recorded length, or the body length when none is recorded. */
    function EffectiveLength(): int {
      if length > 0 then length else |body|
    }
  }

  datatype Board = Board(
    width: int, height: int, snakes: seq<Snake>, food: seq<Coord>, hazards: seq<Coord>,
    ruleset: string, hazardDamage: int) {

    predicate InBounds(c: Coord) {
      InGrid(width, height, c)
    }

    predicate Constrictor() {
      ruleset == "constrictor"
    }
  }

  /** Index of the first snake with the given id, or the number of snakes. */
  function FindSnake(snakes: seq<Snake>, id: string): (i: nat)
    ensures i <= |snakes|
    ensures i < |snakes| ==> snakes[i].id == id
    ensures forall j :: 0 <= j < i ==> snakes[j].id != id
  {
    if snakes == [] then 0
    else if snakes[0].id == id then 0
    else 1 + FindSnake(snakes[1..], id)
  }

  /** The snake the engine resolves an id to. */
  function Lookup(b: Board, id: string): Option<Snake> {
    var i := FindSnake(b.snakes, id);
    if i < |b.snakes| then Some(b.snakes[i]) else None
  }

  predicate Alive(b: Board, id: string) {
    var s := Lookup(b, id);
    s.Some? && s.value.body != []
  }

  /** Stepping onto a hazard without eating would use up the snake's health. */
  predicate HazardKills(b: Board, s: Snake) {
    s.health <= b.hazardDamage + 1
  }

  datatype Command = Command(id: string, move: Move)

  /** The first command naming the snake; none means an invalid move. */
  function MoveFor(id: string, commands: seq<Command>): Move {
    if commands == [] then Invalid
    else if commands[0].id == id then commands[0].move
    else MoveFor(id, commands[1..])
  }

  datatype Cause =
    | Wall | SelfBody | OtherBody | HeadToHead | Starvation | Hazard | InvalidCommand

  /** A snake after its own move, before any collision between snakes is looked at. */
  datatype Mover = Mover(snake: Snake, head: Coord, moved: bool, dead: bool, causes: set<Cause>)

  predicate Grows(b: Board, target: Coord) {
    target in b.food || b.Constrictor()
  }

  function HealthAfter(b: Board, health: int, target: Coord): int {
    if target in b.food then 100
    else health - 1 - (if target in b.hazards then b.hazardDamage else 0)
  }

  function BodyAfter(body: seq<Coord>, target: Coord, grows: bool): (r: seq<Coord>)
    requires body != []
    ensures |r| == |body| + (if grows then 1 else 0)
  {
    [target] + (if grows then body else body[..|body| - 1])
  }

  function MovedSnake(b: Board, s: Snake, m: Move): Snake
    requires s.body != []
  {
    var target := MoveStep(s.body[0], m);
    var body := BodyAfter(s.body, target, Grows(b, target));
    Snake(s.id, s.name, HealthAfter(b, s.health, target), body, |body|)
  }

  function MoveCauses(b: Board, target: Coord, health: int): set<Cause> {
    (if b.InBounds(target) then {} else {Wall})
    + (if health > 0 then {} else if target in b.hazards then {Hazard} else {Starvation})
  }

  function Advance(b: Board, s: Snake, m: Move): Mover {
    if m == Invalid || s.body == [] then
      Mover(s, s.Head(), false, true, {InvalidCommand})
    else
      var t := MovedSnake(b, s, m);
      Mover(t, t.body[0], true, !b.InBounds(t.body[0]) || t.health <= 0, MoveCauses(b, t.body[0], t.health))
  }

  function Movers(b: Board, commands: seq<Command>): (ms: seq<Mover>)
    ensures |ms| == |b.snakes|
  {
    seq(|b.snakes|, i requires 0 <= i < |b.snakes| =>
      Advance(b, b.snakes[i], MoveFor(b.snakes[i].id, commands)))
  }

  /** The head of mover i lies on a non-head segment of mover j. */
  ghost predicate BodyHit(ms: seq<Mover>, i: nat, j: nat)
    requires i < |ms| && j < |ms|
  {
    exists k :: 1 <= k < |ms[j].snake.body| && ms[j].snake.body[k] == ms[i].head
  }

  ghost predicate HitsBody(ms: seq<Mover>, i: nat)
    requires i < |ms|
  {
    exists j :: 0 <= j < |ms| && BodyHit(ms, i, j)
  }

  /** Still alive when head-to-head collisions are resolved. */
  ghost predicate Standing(ms: seq<Mover>, i: nat)
    requires i < |ms|
  {
    !ms[i].dead && !HitsBody(ms, i)
  }

  /** Standing mover j meets mover i head to head and is at least as long. */
  ghost predicate Outmatched(ms: seq<Mover>, i: nat, j: nat)
    requires i < |ms| && j < |ms|
  {
    && i != j && Standing(ms, j) && ms[i].head == ms[j].head
    && ms[j].snake.EffectiveLength() >= ms[i].snake.EffectiveLength()
  }

  ghost predicate LosesHeadToHead(ms: seq<Mover>, i: nat)
    requires i < |ms|
  {
    exists j :: 0 <= j < |ms| && Outmatched(ms, i, j)
  }

  /** A snake survives when it stands and is strictly longer than every standing rival on its cell. */
  ghost predicate Survives(ms: seq<Mover>, i: nat)
    requires i < |ms|
  {
    Standing(ms, i) && !LosesHeadToHead(ms, i)
  }

  ghost function CauseOf(ms: seq<Mover>, i: nat): set<Cause>
    requires i < |ms|
  {
    ms[i].causes
    + (if !ms[i].dead && BodyHit(ms, i, i) then {SelfBody} else {})
    + (if !ms[i].dead && exists j :: 0 <= j < |ms| && j != i && BodyHit(ms, i, j) then {OtherBody} else {})
    + (if Standing(ms, i) && LosesHeadToHead(ms, i) then {HeadToHead} else {})
  }

  ghost function Causes(b: Board, commands: seq<Command>): (r: seq<set<Cause>>)
  {
    var ms := Movers(b, commands);
    seq(|ms|, i requires 0 <= i < |ms| => CauseOf(ms, i))
  }

  /** Indices below n of surviving movers, in order. */
  ghost function Kept(ms: seq<Mover>, n: nat): (r: seq<nat>)
    requires n <= |ms|
    ensures |r| <= n
    ensures forall k :: 0 <= k < |r| ==> r[k] < n && Survives(ms, r[k])
    ensures forall k, l :: 0 <= k < l < |r| ==> r[k] < r[l]
    ensures forall i :: 0 <= i < n && Survives(ms, i) ==> i in r
  {
    if n == 0 then []
    else if Survives(ms, n - 1) then Kept(ms, n - 1) + [n - 1]
    else Kept(ms, n - 1)
  }

  ghost function Survivors(ms: seq<Mover>, n: nat): (r: seq<Snake>)
    requires n <= |ms|
    ensures |r| == |Kept(ms, n)|
    ensures forall k :: 0 <= k < |r| ==> r[k] == ms[Kept(ms, n)[k]].snake
  {
    var kept := Kept(ms, n);
    seq(|kept|, k requires 0 <= k < |kept| => ms[kept[k]].snake)
  }

  /** Position of the first occurrence of c, or the length of the sequence. */
  function FirstIndex(cells: seq<Coord>, c: Coord): (i: nat)
    ensures i <= |cells|
    ensures i < |cells| <==> c in cells
    ensures i < |cells| ==> cells[i] == c
    ensures forall j :: 0 <= j < i ==> cells[j] != c
  {
    if cells == [] then 0
    else if cells[0] == c then 0
    else 1 + FirstIndex(cells[1..], c)
  }

  /** Some mover below n ate the food item listed at position f. */
  ghost predicate EatenItem(food: seq<Coord>, ms: seq<Mover>, n: nat, f: nat)
    requires n <= |ms|
  {
    exists i :: 0 <= i < n && ms[i].moved && FirstIndex(food, ms[i].head) == f
  }

  /** The first f food items, without the eaten ones. */
  ghost function FoodLeft(food: seq<Coord>, ms: seq<Mover>, f: nat): (r: seq<Coord>)
    requires f <= |food|
    ensures |r| <= f
  {
    if f == 0 then []
    else FoodLeft(food, ms, f - 1) + (if EatenItem(food, ms, |ms|, f - 1) then [] else [food[f - 1]])
  }

  /** The board after one simultaneous move. */
  ghost function Step(b: Board, commands: seq<Command>): Board {
    var ms := Movers(b, commands);
    b.(snakes := Survivors(ms, |ms|), food := FoodLeft(b.food, ms, |b.food|))
  }

  /** Every snake that dies is given a cause, and only those. */
  lemma CausesExplainDeaths(b: Board, commands: seq<Command>, i: nat)
    requires i < |b.snakes|
    ensures Survives(Movers(b, commands), i) <==> Causes(b, commands)[i] == {}
  {}
}

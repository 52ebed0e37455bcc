/**
 Going round a closed loop for ever: the body trails the head, every item of food met on the
 way makes it longer by one, and it meets itself as soon as it is longer than the loop.
 */
module Rounds {
  import opened Grid
  import opened Boards
  import opened Remainders
  import opened SoloRuns

  /** A loop of cells, the first of which the head visits at the given time. */
  datatype Loop = Loop(cells: seq<Coord>, start: int) {
    ghost predicate Simple() {
      cells != [] && forall i, j :: 0 <= i < j < |cells| ==> cells[i] != cells[j]
    }

    /** Where the head is at time k. */
    function At(k: int): Coord
      requires cells != []
    {
      cells[(k - start) % |cells|]
    }
  }

  lemma AtRepeats(o: Loop, k: int)
    requires o.cells != []
    ensures o.At(k - |o.cells|) == o.At(k)
  {
    var n := |o.cells|;
    var a := k - o.start;
    MulAdd(a / n, -1, n);
    RemainderUnique(a - n, n, a / n - 1, a % n);
  }

  lemma AtPlace(o: Loop, i: nat)
    requires i < |o.cells|
    ensures o.At(o.start + i) == o.cells[i]
  {
    RemainderUnique(i, |o.cells|, 0, i);
  }

  lemma AtDiffers(o: Loop, k: int, i: int)
    requires o.Simple() && 0 < i < |o.cells|
    ensures o.At(k) != o.At(k - i)
  {
    RemaindersDiffer(k - i - o.start, i, |o.cells|);
  }

  /** Every segment is where the head was that many steps ago. */
  ghost predicate Trails(o: Loop, body: seq<Coord>, k: int) {
    o.cells != [] && body != [] && forall i :: 0 <= i < |body| ==> body[i] == o.At(k - i)
  }

  /** On the loop a body meets itself exactly when it is longer than the loop. */
  lemma MeetsItself(o: Loop, body: seq<Coord>, k: int)
    requires o.Simple() && Trails(o, body, k)
    ensures body[0] in body[1..] <==> |body| > |o.cells|
  {
    var n := |o.cells|;
    if |body| > n {
      AtRepeats(o, k);
      assert body[n] == body[1..][n - 1];
    } else {
      forall i | 1 <= i < |body| ensures body[i] != body[0] {
        AtDiffers(o, k, i);
      }
    }
  }

  /** Items of food on the first n cells of the loop. */
  ghost function Items(cells: seq<Coord>, food: multiset<Coord>, n: nat): nat
    requires n <= |cells|
  {
    if n == 0 then 0 else Items(cells, food, n - 1) + food[cells[n - 1]]
  }

  ghost function ItemsOn(o: Loop, food: multiset<Coord>): nat {
    Items(o.cells, food, |o.cells|)
  }

  lemma {:induction false} ItemsMonotone(cells: seq<Coord>, less: multiset<Coord>, more: multiset<Coord>, n: nat)
    requires n <= |cells| && less <= more
    ensures Items(cells, less, n) <= Items(cells, more, n)
  {
    if n > 0 {
      ItemsMonotone(cells, less, more, n - 1);
    }
  }

  /** Eating an item takes one off the cell where it lies, and no other. */
  lemma {:induction false} ItemsEaten(cells: seq<Coord>, food: multiset<Coord>, i: nat, n: nat)
    requires n <= |cells| && i < |cells| && forall a, b :: 0 <= a < b < |cells| ==> cells[a] != cells[b]
    ensures Items(cells, Eaten(food, cells[i]), n) + (if i < n && cells[i] in food then 1 else 0) == Items(cells, food, n)
  {
    if n > 0 {
      ItemsEaten(cells, food, i, n - 1);
    }
  }

  lemma {:induction false} SomeItem(cells: seq<Coord>, food: multiset<Coord>, n: nat) returns (i: nat)
    requires n <= |cells| && Items(cells, food, n) > 0
    ensures i < n && cells[i] in food
  {
    if cells[n - 1] in food {
      i := n - 1;
    } else {
      i := SomeItem(cells, food, n - 1);
    }
  }

  /** The move of step k leads from place to place on the loop. */
  ghost predicate Rides(o: Loop, run: Run, k: nat) {
    o.cells != [] && run.move(k) != Invalid && MoveStep(o.At(k - 1), run.move(k)) == o.At(k)
  }

  /** Food is never added, and what is eaten is gone. */
  ghost predicate Dwindles(o: Loop, run: Run, k: nat) {
    o.cells != [] && multiset(run.food(k + 1)) <= Eaten(multiset(run.food(k)), o.At(k))
  }

  /** Nothing is lost but what is eaten. */
  ghost predicate Keeps(o: Loop, run: Run, k: nat) {
    o.cells != [] && multiset(run.food(k + 1)) == Eaten(multiset(run.food(k)), o.At(k))
  }

  /** One step: the body still trails the head, and grows by the item met. */
  lemma StepTrails(o: Loop, b: Board, s: Snake, run: Run, k: nat)
    requires Trails(o, s.body, k - 1) && Rides(o, run, k)
    ensures var t := MovedSnake(b.(food := run.food(k)), s, run.move(k));
            Trails(o, t.body, k) && |t.body| == |s.body| + if o.At(k) in run.food(k) || b.Constrictor() then 1 else 0
  {
    BodyShifts(b.(food := run.food(k)), s, run.move(k));
  }

  lemma StepItems(o: Loop, food: seq<Coord>, left: multiset<Coord>, k: int)
    requires o.Simple() && left <= Eaten(multiset(food), o.At(k))
    ensures ItemsOn(o, left) + (if o.At(k) in food then 1 else 0) <= ItemsOn(o, multiset(food))
    ensures left == Eaten(multiset(food), o.At(k)) ==>
      ItemsOn(o, left) + (if o.At(k) in food then 1 else 0) == ItemsOn(o, multiset(food))
  {
    var n := |o.cells|;
    ItemsEaten(o.cells, multiset(food), (k - o.start) % n, n);
    ItemsMonotone(o.cells, left, Eaten(multiset(food), o.At(k)), n);
    assert o.At(k) in multiset(food) <==> o.At(k) in food;
  }

  /** From time t on the run stays on the loop. */
  ghost predicate Circles(o: Loop, run: Run, t: nat) {
    forall k: nat :: k > t ==> Rides(o, run, k) && Dwindles(o, run, k)
  }

  /** What the body has gained the loop has lost. */
  lemma {:induction false} LengthAndItems(o: Loop, b: Board, s: Snake, run: Run, t: nat, k: nat)
    requires o.Simple() && s.body != [] && Trails(o, s.body, t) && Circles(o, run, t) && k >= t
    ensures var now := SnakeAfter(b, s, run, t, k);
            && Trails(o, now.body, k)
            && (!b.Constrictor() ==>
                  |now.body| + ItemsOn(o, multiset(run.food(k + 1))) <= |s.body| + ItemsOn(o, multiset(run.food(t + 1))))
    decreases k
  {
    hide MovedSnake, ItemsOn, Trails, Rides, Dwindles;
    if k > t {
      LengthAndItems(o, b, s, run, t, k - 1);
      StepTrails(o, b, SnakeAfter(b, s, run, t, k - 1), run, k);
      OneStepItems(o, run, k);
    }
  }

  lemma OneStepItems(o: Loop, run: Run, k: nat)
    requires o.Simple() && Dwindles(o, run, k)
    ensures ItemsOn(o, multiset(run.food(k + 1))) + (if o.At(k) in run.food(k) then 1 else 0) <= ItemsOn(o, multiset(run.food(k)))
    ensures Keeps(o, run, k) ==>
      ItemsOn(o, multiset(run.food(k + 1))) + (if o.At(k) in run.food(k) then 1 else 0) == ItemsOn(o, multiset(run.food(k)))
  {
    StepItems(o, run.food(k), multiset(run.food(k + 1)), k);
  }

  /** When all the food on the loop fits between head and tail, the snake never meets itself. */
  lemma NeverMeets(o: Loop, b: Board, s: Snake, run: Run, t: nat, k: nat)
    requires o.Simple() && s.body != [] && Trails(o, s.body, t) && Circles(o, run, t) && k >= t && !b.Constrictor()
    requires |s.body| + ItemsOn(o, multiset(run.food(t + 1))) <= |o.cells|
    ensures var now := SnakeAfter(b, s, run, t, k);
            Trails(o, now.body, k) && |now.body| <= |o.cells| && now.body[0] !in now.body[1..]
  {
    hide ItemsOn, Trails, SnakeAfter, Circles;
    LengthAndItems(o, b, s, run, t, k);
    MeetsItself(o, SnakeAfter(b, s, run, t, k).body, k);
  }

  /** From time t on the run stays on the loop, and no food is lost. */
  ghost predicate Gathers(o: Loop, run: Run, t: nat) {
    forall k: nat :: k > t ==> Rides(o, run, k) && Keeps(o, run, k)
  }

  lemma GatheringCircles(o: Loop, run: Run, t: nat)
    requires Gathers(o, run, t)
    ensures Circles(o, run, t)
  {
    hide Rides;
    forall k: nat | k > t ensures Rides(o, run, k) && Dwindles(o, run, k) {
      assert Rides(o, run, k) && Keeps(o, run, k);
    }
  }

  lemma {:induction false} LengthAndItemsConstant(o: Loop, b: Board, s: Snake, run: Run, t: nat, k: nat)
    requires o.Simple() && s.body != [] && Trails(o, s.body, t) && Gathers(o, run, t) && k >= t && !b.Constrictor()
    ensures |SnakeAfter(b, s, run, t, k).body| + ItemsOn(o, multiset(run.food(k + 1)))
         == |s.body| + ItemsOn(o, multiset(run.food(t + 1)))
    decreases k
  {
    hide MovedSnake, ItemsOn, Trails, Rides, Keeps, Dwindles;
    if k > t {
      LengthAndItemsConstant(o, b, s, run, t, k - 1);
      GatheringCircles(o, run, t);
      LengthAndItems(o, b, s, run, t, k - 1);
      StepTrails(o, b, SnakeAfter(b, s, run, t, k - 1), run, k);
      OneStepItems(o, run, k);
    }
  }

  /** Steps until the head comes to the i-th cell again. */
  function Ahead(o: Loop, k: int, i: nat): nat
    requires i < |o.cells|
  {
    var p := (k - o.start) % |o.cells|;
    if i >= p then i - p else i - p + |o.cells|
  }

  /** Food on the loop is met within a lap. */
  lemma {:induction false} NextMeal(o: Loop, run: Run, t: nat, k: nat, i: nat) returns (j: nat)
    requires o.Simple() && Gathers(o, run, t) && k > t && i < |o.cells| && o.cells[i] in run.food(k)
    ensures j > k && ItemsOn(o, multiset(run.food(j))) < ItemsOn(o, multiset(run.food(k)))
    decreases Ahead(o, k, i)
  {
    hide ItemsOn;
    GatheringCircles(o, run, t);
    assert Rides(o, run, k) && Keeps(o, run, k) && Dwindles(o, run, k);
    OneStepItems(o, run, k);
    if o.At(k) == o.cells[i] {
      j := k + 1;
    } else {
      RemainderNext(k - o.start, |o.cells|);
      assert Ahead(o, k + 1, i) < Ahead(o, k, i);
      StillThere(run.food(k), run.food(k + 1), o.At(k), o.cells[i]);
      j := NextMeal(o, run, t, k + 1, i);
    }
  }

  lemma StillThere(food: seq<Coord>, left: seq<Coord>, head: Coord, c: Coord)
    requires multiset(left) == Eaten(multiset(food), head) && c != head && c in food
    ensures c in left
  {
    assert c in multiset(food);
    assert c in multiset(left);
  }

  /** In the end everything on the loop is eaten. */
  lemma {:induction false} AllEaten(o: Loop, run: Run, t: nat, k: nat) returns (j: nat)
    requires o.Simple() && Gathers(o, run, t) && k > t
    ensures j >= k && ItemsOn(o, multiset(run.food(j))) == 0
    decreases ItemsOn(o, multiset(run.food(k)))
  {
    hide Gathers;
    if ItemsOn(o, multiset(run.food(k))) == 0 {
      j := k;
    } else {
      var i := SomeItem(o.cells, multiset(run.food(k)), |o.cells|);
      var next := NextMeal(o, run, t, k, i);
      j := AllEaten(o, run, t, next);
    }
  }

  /** When there is more food on the loop than room, the snake that loses none of it meets itself. */
  lemma MeetsInTheEnd(o: Loop, b: Board, s: Snake, run: Run, t: nat) returns (k: nat)
    requires o.Simple() && s.body != [] && Trails(o, s.body, t) && Gathers(o, run, t) && !b.Constrictor()
    requires |s.body| + ItemsOn(o, multiset(run.food(t + 1))) > |o.cells|
    ensures k >= t && var body := SnakeAfter(b, s, run, t, k).body; body[0] in body[1..]
  {
    hide ItemsOn, Trails, SnakeAfter, Gathers;
    var j := AllEaten(o, run, t, t + 1);
    k := j - 1;
    LengthAndItemsConstant(o, b, s, run, t, k);
    GatheringCircles(o, run, t);
    LengthAndItems(o, b, s, run, t, k);
    MeetsItself(o, SnakeAfter(b, s, run, t, k).body, k);
  }

  /** A snake that grows every turn fills any loop. */
  lemma {:induction false} GrowsEveryTurn(o: Loop, b: Board, s: Snake, run: Run, t: nat, k: nat)
    requires o.Simple() && s.body != [] && Trails(o, s.body, t) && Circles(o, run, t) && k >= t && b.Constrictor()
    ensures Trails(o, SnakeAfter(b, s, run, t, k).body, k) && |SnakeAfter(b, s, run, t, k).body| == |s.body| + (k - t)
    decreases k
  {
    hide MovedSnake, Trails, Rides, Dwindles;
    if k > t {
      GrowsEveryTurn(o, b, s, run, t, k - 1);
      StepTrails(o, b, SnakeAfter(b, s, run, t, k - 1), run, k);
    }
  }

  lemma GrowingMeets(o: Loop, b: Board, s: Snake, run: Run, t: nat) returns (k: nat)
    requires o.Simple() && s.body != [] && Trails(o, s.body, t) && Circles(o, run, t) && b.Constrictor()
    ensures k >= t && var body := SnakeAfter(b, s, run, t, k).body; body[0] in body[1..]
  {
    hide SnakeAfter, Trails, Circles;
    k := t + |o.cells|;
    GrowsEveryTurn(o, b, s, run, t, k);
    MeetsItself(o, SnakeAfter(b, s, run, t, k).body, k);
  }

  /** The food without its first item on the cell. */
  function Without(food: seq<Coord>, c: Coord): seq<Coord> {
    if food == [] then [] else if food[0] == c then food[1..] else [food[0]] + Without(food[1..], c)
  }

  lemma {:induction false} WithoutIsEaten(food: seq<Coord>, c: Coord)
    ensures multiset(Without(food, c)) == Eaten(multiset(food), c)
  {
    if food != [] {
      assert food == [food[0]] + food[1..];
      assert multiset(food) == multiset{food[0]} + multiset(food[1..]);
      if food[0] != c {
        WithoutIsEaten(food[1..], c);
        EatenAside(multiset(food[1..]), food[0], c);
      }
    }
  }

  lemma EatenAside(food: multiset<Coord>, other: Coord, c: Coord)
    requires other != c
    ensures Eaten(multiset{other} + food, c) == multiset{other} + Eaten(food, c)
  {}

  ghost predicate NextTo(a: Coord, b: Coord) {
    exists m :: m in DIRECTIONS && MoveStep(a, m) == b
  }

  /** The move from a cell to the one next to it. */
  function MoveTo(a: Coord, b: Coord): (m: Move)
    ensures NextTo(a, b) ==> m != Invalid && MoveStep(a, m) == b
  {
    if b == MoveStep(a, Up) then Up else if b == MoveStep(a, Down) then Down
    else if b == MoveStep(a, Move.Left) then Move.Left else if b == MoveStep(a, Right) then Right else Invalid
  }
}

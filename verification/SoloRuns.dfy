/**
 One snake moving by the engine's rule while food comes to be missing: what the
 certificates about routes and cycles are stated for.
 */
module SoloRuns {
  import opened Grid
  import opened Boards

  /** A run of one snake: the moves taken and the food on the board at each step. */
  datatype Run = Run(food: nat -> seq<Coord>, move: nat -> Move)

  function Eaten(food: multiset<Coord>, c: Coord): multiset<Coord> {
    if c in food then food - multiset{c} else food
  }

  /** No food lies twice on one cell. */
  ghost predicate SingleFood(b: Board) {
    forall c :: multiset(b.food)[c] <= 1
  }

  /** The snake at time k of a run that starts with s at the given time, by the engine's own move rule. */
  ghost function SnakeAfter(b: Board, s: Snake, run: Run, start: nat, k: nat): (t: Snake)
    requires s.body != [] && k >= start
    ensures t.body != []
    decreases k
  {
    if k == start then s else MovedSnake(b.(food := run.food(k)), SnakeAfter(b, s, run, start, k - 1), run.move(k))
  }

  /** A run may be entered at any time. */
  lemma {:induction false} SnakeLater(b: Board, s: Snake, run: Run, start: nat, middle: nat, k: nat)
    requires s.body != [] && start <= middle <= k
    ensures SnakeAfter(b, SnakeAfter(b, s, run, start, middle), run, middle, k) == SnakeAfter(b, s, run, start, k)
    decreases k
  {
    hide MovedSnake;
    if k > middle {
      SnakeLater(b, s, run, start, middle, k - 1);
    }
  }

  lemma BodyShifts(b: Board, s: Snake, m: Move)
    requires s.body != []
    ensures var t, next := MovedSnake(b, s, m), MoveStep(s.body[0], m);
            && t.body[0] == next && |t.body| == |s.body| + (if Grows(b, next) then 1 else 0)
            && forall i :: 1 <= i < |t.body| ==> t.body[i] == s.body[i - 1]
  {}
}

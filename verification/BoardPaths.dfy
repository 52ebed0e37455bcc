/**
 Shortest paths on a board: which cells are blocked for a snake, and the path in
 coordinates from any start to any goal.
 */
module BoardPaths {
  import opened Graphs
  import opened Grid
  import opened Boards
  import opened Optional
  import opened CellMarks
  import opened Counting
  import opened Limits
  import opened SafeMoves
  import opened AStar
  import BestFirst
  import Capacity

  /** A body that does not vacate the cell, an unaffordable hazard, or a step of a rival of sufficient length. */
  ghost predicate Blocked(b: Board, s: Snake, c: Coord) {
    || (OnBody(b, c) && !OnVacatingTail(b, c, s.id))
    || (HazardKills(b, s) && c in b.hazards)
    || Contested(b, s, c)
  }

  /** A path steps from cell to cell; every cell after the first is on the board and not blocked. */
  ghost predicate IsPath(b: Board, s: Snake, start: Coord, goal: Coord, p: seq<Coord>) {
    && |p| > 0 && p[0] == start && p[|p| - 1] == goal
    && forall i {:trigger p[i + 1]} :: 0 <= i < |p| - 1 ==>
         Adjacent(p[i], p[i + 1]) && b.InBounds(p[i + 1]) && (p[i + 1] == start || !Blocked(b, s, p[i + 1]))
  }

  ghost predicate Adjacent(c: Coord, d: Coord) {
    exists m :: m in DIRECTIONS && MoveStep(c, m) == d
  }

  ghost predicate OnBodyBefore(b: Board, n: nat, c: Coord) {
    exists i :: 0 <= i < n && i < |b.snakes| && c in b.snakes[i].body
  }

  ghost predicate TailLeaves(b: Board, id: string, i: nat, c: Coord) {
    i < |b.snakes| && TailVacates(b, b.snakes[i], c, id) && b.snakes[i].body[|b.snakes[i].body| - 1] == c
  }

  ghost predicate VacatedBefore(b: Board, id: string, n: nat, c: Coord) {
    exists i: nat :: i < n && TailLeaves(b, id, i, c)
  }

  method FillBodies(b: Board, blocked: array<bool>)
    requires b.width > 0 && b.height > 0 && blocked.Length == b.width * b.height
    requires forall k :: 0 <= k < blocked.Length ==> !blocked[k]
    modifies blocked
    ensures forall k :: 0 <= k < blocked.Length ==> (blocked[k] <==> OnBody(b, CellCoord(b.width, k)))
  {
    for i := 0 to |b.snakes|
      invariant forall k :: 0 <= k < blocked.Length ==> (blocked[k] <==> OnBodyBefore(b, i, CellCoord(b.width, k)))
    {
      MarkCells(b, blocked, b.snakes[i].body);
    }
    forall c ensures OnBodyBefore(b, |b.snakes|, c) <==> OnBody(b, c) {
      if OnBodyBefore(b, |b.snakes|, c) {
        var i :| 0 <= i < |b.snakes| && c in b.snakes[i].body;
        var p :| 0 <= p < |b.snakes[i].body| && b.snakes[i].body[p] == c;
        assert OnBody(b, c);
      }
    }
  }

  /** Opens the cells of the tails that are expected to leave. */
  method OpenTails(b: Board, id: string, blocked: array<bool>)
    requires b.width > 0 && b.height > 0 && blocked.Length == b.width * b.height
    modifies blocked
    ensures forall k :: 0 <= k < blocked.Length ==>
      (blocked[k] <==> old(blocked[k]) && !OnVacatingTail(b, CellCoord(b.width, k), id))
  {
    hide TailLeaves, CellCoord;
    for i := 0 to |b.snakes|
      invariant forall k :: 0 <= k < blocked.Length ==>
        (blocked[k] <==> old(blocked[k]) && !VacatedBefore(b, id, i, CellCoord(b.width, k)))
    {
      var other := b.snakes[i];
      TailStep(b, id, i);
      if !b.Constrictor() && other.body != [] {
        var tail := other.body[|other.body| - 1];
        if if other.id == id then tail !in b.food else !CanEatNextTurn(b, other) {
          SetCell(b, blocked, tail, false);
        }
      }
    }
    forall c ensures VacatedBefore(b, id, |b.snakes|, c) <==> OnVacatingTail(b, c, id) {
      TailsDone(b, id, c);
    }
  }

  lemma TailStep(b: Board, id: string, i: nat)
    requires i < |b.snakes|
    ensures var other := b.snakes[i];
            var leaves := !b.Constrictor() && other.body != [] &&
                          if other.id == id then other.body[|other.body| - 1] !in b.food else !CanEatNextTurn(b, other);
            forall c :: VacatedBefore(b, id, i + 1, c) <==>
              VacatedBefore(b, id, i, c) || (leaves && c == other.body[|other.body| - 1])
  {
    var other := b.snakes[i];
    forall c ensures VacatedBefore(b, id, i + 1, c) <==> VacatedBefore(b, id, i, c) || TailLeaves(b, id, i, c) {}
  }

  lemma TailsDone(b: Board, id: string, c: Coord)
    ensures VacatedBefore(b, id, |b.snakes|, c) <==> OnVacatingTail(b, c, id)
  {
    if VacatedBefore(b, id, |b.snakes|, c) {
      var i: nat :| i < |b.snakes| && TailLeaves(b, id, i, c);
    }
    if OnVacatingTail(b, c, id) {
      var i :| 0 <= i < |b.snakes| && TailVacates(b, b.snakes[i], c, id) && b.snakes[i].body[|b.snakes[i].body| - 1] == c;
      assert TailLeaves(b, id, i, c);
    }
  }

  ghost predicate ContestedBefore(b: Board, s: Snake, n: nat, c: Coord) {
    exists i :: 0 <= i < n && i < |b.snakes| && Threatens(b.snakes[i], s, c)
  }

  /** The cells next to a head. */
  function StepsFrom(c: Coord): (r: seq<Coord>)
    ensures forall d :: d in r <==> exists m :: m in DIRECTIONS && MoveStep(c, m) == d
  {
    var r := [MoveStep(c, Up), MoveStep(c, Down), MoveStep(c, Left), MoveStep(c, Right)];
    assert Up in DIRECTIONS && Down in DIRECTIONS && Left in DIRECTIONS && Right in DIRECTIONS;
    r
  }

  method BlockRivalSteps(b: Board, s: Snake, blocked: array<bool>)
    requires b.width > 0 && b.height > 0 && blocked.Length == b.width * b.height
    modifies blocked
    ensures forall k :: 0 <= k < blocked.Length ==>
      (blocked[k] <==> old(blocked[k]) || Contested(b, s, CellCoord(b.width, k)))
  {
    hide CellCoord;
    for i := 0 to |b.snakes|
      invariant forall k :: 0 <= k < blocked.Length ==>
        (blocked[k] <==> old(blocked[k]) || ContestedBefore(b, s, i, CellCoord(b.width, k)))
    {
      var other := b.snakes[i];
      if other.body != [] && other.id != s.id && other.EffectiveLength() >= s.EffectiveLength() {
        MarkCells(b, blocked, StepsFrom(other.Head()));
      }
    }
  }

  method FillPathBlocks(b: Board, s: Snake, blocked: array<bool>)
    requires b.width > 0 && b.height > 0 && blocked.Length == b.width * b.height
    requires forall k :: 0 <= k < blocked.Length ==> !blocked[k]
    modifies blocked
    ensures forall k :: 0 <= k < blocked.Length ==> (blocked[k] <==> Blocked(b, s, CellCoord(b.width, k)))
  {
    hide OnBody, OnVacatingTail, Contested, CellCoord;
    FillBodies(b, blocked);
    OpenTails(b, s.id, blocked);
    if HazardKills(b, s) {
      MarkCells(b, blocked, b.hazards);
    }
    BlockRivalSteps(b, s, blocked);
  }

  /** The cells a path may use: those not blocked, and the start. */
  ghost function UsableCells(b: Board, s: Snake, start: Coord): set<nat>
    requires b.width > 0 && b.height > 0
  {
    set c | c in Below(b.width * b.height) && (!Blocked(b, s, CellCoord(b.width, c)) || CellCoord(b.width, c) == start)
  }

  lemma EdgeIsAdjacent(b: Board, u: nat, v: nat)
    requires b.width > 0 && b.height > 0 && u < b.width * b.height && v < b.width * b.height
    ensures Edge(GridGraph(b.width, b.height), u, v) <==> Adjacent(CellCoord(b.width, u), CellCoord(b.width, v))
  {
    NeighborsAreSteps(b.width, b.height, u, v);
  }

  /** A walk in the graph of cells is a path in coordinates. */
  lemma WalkIsPath(b: Board, s: Snake, start: Coord, goal: Coord, q: seq<nat>)
    requires b.width > 0 && b.height > 0 && b.InBounds(start) && b.InBounds(goal)
    requires 0 <= CellIndex(b.width, start) && 0 <= CellIndex(b.width, goal)
    requires IsWalkBetween(GridGraph(b.width, b.height), UsableCells(b, s, start), CellIndex(b.width, start),
                           CellIndex(b.width, goal), q)
    ensures IsPath(b, s, start, goal, Coords(b.width, q))
  {
    var g, open, p := GridGraph(b.width, b.height), UsableCells(b, s, start), Coords(b.width, q);
    GridGraphWellFormed(b.width, b.height);
    IndexInRange(b.width, b.height, start);
    IndexInRange(b.width, b.height, goal);
    hide UsableCells, Blocked, GridGraph, Neighbors;
    forall i {:trigger p[i + 1]} | 0 <= i < |p| - 1
      ensures Adjacent(p[i], p[i + 1]) && b.InBounds(p[i + 1]) && (p[i + 1] == start || !Blocked(b, s, p[i + 1]))
    {
      BestFirst.WalkInRange(g, open, q, i);
      BestFirst.WalkInRange(g, open, q, i + 1);
      assert Edge(g, q[i], q[i + 1]) && q[i + 1] in open;
      EdgeIsAdjacent(b, q[i], q[i + 1]);
      CoordInRange(b.width, b.height, q[i + 1]);
      UsableMeans(b, s, start, q[i + 1]);
    }
  }

  lemma UsableMeans(b: Board, s: Snake, start: Coord, c: nat)
    requires b.width > 0 && b.height > 0 && c < b.width * b.height
    ensures c in UsableCells(b, s, start) <==>
      !Blocked(b, s, CellCoord(b.width, c)) || CellCoord(b.width, c) == start
  {}

  lemma {:induction false} PathInBounds(b: Board, s: Snake, start: Coord, goal: Coord, p: seq<Coord>, i: nat)
    requires IsPath(b, s, start, goal, p) && b.InBounds(start) && i < |p|
    ensures b.InBounds(p[i])
  {
    if i > 0 {
      var j := i - 1;
      assert b.InBounds(p[j + 1]);
    }
  }

  /** A path in coordinates is a walk of the same length in the graph of cells. */
  lemma PathIsWalk(b: Board, s: Snake, start: Coord, goal: Coord, p: seq<Coord>) returns (q: seq<nat>)
    requires b.width > 0 && b.height > 0 && b.InBounds(start) && IsPath(b, s, start, goal, p)
    ensures 0 <= CellIndex(b.width, start) && 0 <= CellIndex(b.width, goal) && |q| == |p|
    ensures IsWalkBetween(GridGraph(b.width, b.height), UsableCells(b, s, start), CellIndex(b.width, start),
                          CellIndex(b.width, goal), q)
  {
    hide UsableCells, Blocked, GridGraph, Neighbors, CellIndex, CellCoord;
    forall i | 0 <= i < |p| ensures 0 <= CellIndex(b.width, p[i]) < b.width * b.height
      ensures CellCoord(b.width, CellIndex(b.width, p[i])) == p[i]
    {
      PathInBounds(b, s, start, goal, p, i);
      IndexInRange(b.width, b.height, p[i]);
    }
    q := seq(|p|, i requires 0 <= i < |p| => CellIndex(b.width, p[i]));
    var g, open := GridGraph(b.width, b.height), UsableCells(b, s, start);
    forall i {:trigger q[i + 1]} | 0 <= i < |q| - 1 ensures Edge(g, q[i], q[i + 1]) && q[i + 1] in open {
      assert Adjacent(p[i], p[i + 1]);
      EdgeIsAdjacent(b, q[i], q[i + 1]);
      UsableMeans(b, s, start, q[i + 1]);
    }
  }

  ghost predicate HasPath(b: Board, s: Snake, start: Coord, goal: Coord) {
    exists p :: IsPath(b, s, start, goal, p)
  }

  ghost predicate ShortestPath(b: Board, s: Snake, start: Coord, goal: Coord, path: seq<Coord>) {
    IsPath(b, s, start, goal, path) && forall p :: IsPath(b, s, start, goal, p) ==> |path| <= |p|
  }

  /** What the search answers in terms of cells, said in terms of coordinates. */
  lemma AnswerIsPath(b: Board, s: Snake, start: Coord, goal: Coord, path: seq<Coord>)
    requires b.width > 0 && b.height > 0 && b.InBounds(start) && b.InBounds(goal)
    requires 0 <= CellIndex(b.width, start) && 0 <= CellIndex(b.width, goal)
    requires Answers(GridGraph(b.width, b.height), UsableCells(b, s, start), b.width, CellIndex(b.width, start),
                     CellIndex(b.width, goal), path)
    ensures path == [] <==> !HasPath(b, s, start, goal)
    ensures path != [] ==> ShortestPath(b, s, start, goal, path)
  {
    var g, open := GridGraph(b.width, b.height), UsableCells(b, s, start);
    hide IsPath, UsableCells, GridGraph, Neighbors, CellIndex, IsWalkBetween;
    var from, to := CellIndex(b.width, start), CellIndex(b.width, goal);
    forall p | IsPath(b, s, start, goal, p)
      ensures path != [] && |path| <= |p|
    {
      var q := PathIsWalk(b, s, start, goal, p);
    }
    if path != [] {
      var q :| IsWalkBetween(g, open, from, to, q) && path == Coords(b.width, q) && NoShorter(g, open, from, to, |q|);
      WalkIsPath(b, s, start, goal, q);
    }
  }

  /** A shortest path for the named snake; none when there is no path. None is an error. */
  method CoreShortestPath(b: Board, start: Coord, goal: Coord, id: string) returns (result: Option<seq<Coord>>)
    ensures b.width <= 0 || b.height <= 0 ==> result.None?
    ensures b.width > 0 && b.height > 0 && (Lookup(b, id).None? || !b.InBounds(start) || !b.InBounds(goal)) ==>
      result == Some([])
    ensures b.width > 0 && b.height > 0 && Lookup(b, id).Some? && b.InBounds(start) && b.InBounds(goal) ==>
      var s := Lookup(b, id).value;
      && (result.None? <==> b.width * b.height > INT_MAX)
      && (result.Some? ==>
            && (result.value == [] <==> !HasPath(b, s, start, goal))
            && (result.value != [] ==> ShortestPath(b, s, start, goal, result.value)))
  {
    if b.width <= 0 || b.height <= 0 {
      return None;
    }
    var found := Lookup(b, id);
    if found.None? || !b.InBounds(start) || !b.InBounds(goal) {
      return Some([]);
    }
    if b.width * b.height > INT_MAX {
      return None;
    }
    var path := PathFor(b, found.value, start, goal);
    return Some(path[..]);
  }

  method PathFor(b: Board, s: Snake, start: Coord, goal: Coord) returns (path: array<Coord>)
    requires b.width > 0 && b.height > 0 && b.InBounds(start) && b.InBounds(goal)
    requires b.width * b.height <= INT_MAX
    ensures path[..] == [] <==> !HasPath(b, s, start, goal)
    ensures path[..] != [] ==> ShortestPath(b, s, start, goal, path[..])
  {
    hide Blocked, HasPath, ShortestPath, Neighbors, Answers, WellFormed, Symmetric;
    var width: nat, height: nat := b.width, b.height;
    var n := width * height;
    IndexInRange(width, height, start);
    IndexInRange(width, height, goal);
    var from: nat, to: nat := CellIndex(width, start), CellIndex(width, goal);
    var blocked := new bool[n](_ => false);
    FillPathBlocks(b, s, blocked);
    blocked[from] := false;
    ghost var open := UsableCells(b, s, start);
    forall c: nat | c < n ensures blocked[c] <==> c !in open {
      if CellCoord(width, c) == start {
        CoordInRange(width, height, c);
      }
    }
    assert OpenSet(blocked[..]) == open;
    if blocked[to] {
      BlockedGoal(b, s, start, goal, from, to);
      path := new Coord[0];
      assert path[..] == [];
    } else {
      path := RunSearch(b, s, start, goal, from, to, blocked);
    }
    AnswerIsPath(b, s, start, goal, path[..]);
  }

  lemma BlockedGoal(b: Board, s: Snake, start: Coord, goal: Coord, from: nat, to: nat)
    requires b.width > 0 && b.height > 0 && b.InBounds(start) && from == CellIndex(b.width, start)
    requires to !in UsableCells(b, s, start)
    ensures Answers(GridGraph(b.width, b.height), UsableCells(b, s, start), b.width, from, to, [])
  {
    var g, open := GridGraph(b.width, b.height), UsableCells(b, s, start);
    IndexInRange(b.width, b.height, start);
    UsableMeans(b, s, start, from);
    if Reaches(g, open, from, to) {
      Capacity.WalkEndsOpen(g, open, from, to);
    }
  }

  lemma SearchSetting(width: nat, height: nat, start: Coord, goal: Coord, blocked: seq<bool>)
    requires InGrid(width, height, start) && InGrid(width, height, goal)
    requires |blocked| == width * height <= INT_MAX
    ensures 0 <= CellIndex(width, start) < width * height && 0 <= CellIndex(width, goal) < width * height
    ensures var h := Estimate(width, width * height, goal);
            && Estimates(width, goal, h) && h[CellIndex(width, goal)] == 0
            && h[CellIndex(width, start)] == Manhattan(start, goal)
            && BestFirst.Setting(GridGraph(width, height), OpenSet(blocked), CellIndex(width, start), h)
  {
    GridGraphWellFormed(width, height);
    IndexInRange(width, height, start);
    EstimateConsistent(width, height, goal);
  }

  method RunSearch(b: Board, s: Snake, start: Coord, goal: Coord, from: nat, to: nat, blocked: array<bool>)
    returns (path: array<Coord>)
    requires b.width > 0 && b.height > 0 && b.InBounds(start) && b.InBounds(goal)
    requires blocked.Length == b.width * b.height <= INT_MAX
    requires from == CellIndex(b.width, start) && to == CellIndex(b.width, goal)
    ensures Answers(GridGraph(b.width, b.height), OpenSet(blocked[..]), b.width, from, to, path[..])
  {
    hide Neighbors, Answers, Holds, BestFirst.Inv, BestFirst.Setting, Manhattan, Estimates, OpenSet, ClosedSet, Estimate,
      CellIndex;
    var width: nat, height: nat, n := b.width, b.height, blocked.Length;
    var g := GridGraph(width, height);
    SearchSetting(width, height, start, goal, blocked[..]);
    ghost var h := Estimate(width, n, goal);
    var closed := new bool[n](_ => false);
    var marks := new bool[n](_ => false);
    var list := new nat[n](_ => 0);
    var parent := new int[n](_ => -1);
    var score := new int[n](_ => INT_MAX);
    var total := new int[n](_ => INT_MAX);
    list[0], marks[from], score[from], total[from] := from, true, 0, Manhattan(start, goal);
    assert closed[..] == seq(n, _ => false);
    assert marks[..] == seq(n, _ => false)[from := true];
    assert parent[..] == seq(n, _ => -1);
    assert score[..] == seq(n, _ => INT_MAX)[from := 0];
    assert total[..] == seq(n, _ => INT_MAX)[from := h[from]];
    assert list[..1] == [from];
    HoldsStarts(g, blocked[..], from, h, score[..], total[..], parent[..], marks[..], closed[..]);
    path := Search(g, width, from, to, goal, blocked, score, total, parent, list, marks, closed, h);
  }

  /** Every cell a path enters, other than its start, is one the safety test accepts. */
  lemma PathCellsAreSafe(b: Board, id: string, start: Coord, goal: Coord, p: seq<Coord>, i: nat)
    requires Lookup(b, id).Some? && IsPath(b, Lookup(b, id).value, start, goal, p)
    requires 0 < i < |p| && p[i] != start
    ensures SafeTarget(b, p[i], id)
  {
    var j := i - 1;
    assert p[j + 1] == p[i];
  }
}

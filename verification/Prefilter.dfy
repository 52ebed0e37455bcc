/**
 The conservative prefilter of the structural diagnostics: a second flood fill,
 over coordinates and with every occupied cell blocked for good. It never exceeds
 the relaxed static capacity the engine would compute after the command.
 */
module Prefilter {
  import opened Grid
  import opened Graphs
  import opened Boards
  import opened Limits
  import opened FloodFill
  import opened Counting
  import opened Capacity
  import opened SearchStates
  import opened Occupancy

  ghost function IndexSet(width: nat, height: nat, cells: set<Coord>): set<nat> {
    set i | i in Below(width * height) && width > 0 && CellCoord(width, i) in cells
  }

  lemma IndexSetGrows(width: nat, height: nat, cells: set<Coord>, c: Coord)
    requires forall d :: d in cells ==> InGrid(width, height, d)
    requires InGrid(width, height, c) && c !in cells
    ensures IndexSet(width, height, cells + {c}) == IndexSet(width, height, cells) + {CellIndex(width, c)}
    ensures CellIndex(width, c) !in IndexSet(width, height, cells)
  {
    IndexInRange(width, height, c);
    forall i | i in IndexSet(width, height, cells + {c})
      ensures i in IndexSet(width, height, cells) + {CellIndex(width, c)}
    {
      CoordInRange(width, height, i);
    }
  }

  lemma {:induction false} IndexSetCount(width: nat, height: nat, cells: set<Coord>)
    requires forall c :: c in cells ==> InGrid(width, height, c)
    ensures |IndexSet(width, height, cells)| == |cells|
    decreases |cells|
  {
    if cells == {} {
      assert IndexSet(width, height, cells) == {};
    } else {
      hide IndexSet;
      var c :| c in cells;
      IndexSetCount(width, height, cells - {c});
      IndexSetGrows(width, height, cells - {c}, c);
      assert cells - {c} + {c} == cells;
    }
  }

  ghost function Unblocked(width: nat, height: nat, blocked: set<Coord>): (r: set<nat>)
    ensures forall c: nat :: c in r <==> c < width * height && width > 0 && CellCoord(width, c) !in blocked
  {
    set c | c in Below(width * height) && width > 0 && CellCoord(width, c) !in blocked
  }

  /** The indices of the cells a flood from start over unblocked cells covers. */
  ghost function FloodRegion(width: nat, height: nat, start: Coord, blocked: set<Coord>): set<nat>
    requires InGrid(width, height, start)
  {
    IndexInRange(width, height, start);
    Component(GridGraph(width, height), Unblocked(width, height, blocked), CellIndex(width, start))
  }

  /** Every free neighbour of the cell has been visited. */
  ghost predicate Settled(width: nat, height: nat, blocked: set<Coord>, visited: set<Coord>, c: Coord) {
    forall m :: m in DIRECTIONS ==>
      InGrid(width, height, MoveStep(c, m)) && MoveStep(c, m) !in blocked ==> MoveStep(c, m) in visited
  }

  /** The coordinate flood so far: every cell visited is reachable, and expanded cells have no new neighbour. */
  ghost predicate CoordFlood(width: nat, height: nat, start: Coord, blocked: set<Coord>,
                             visited: set<Coord>, queue: seq<Coord>)
    requires InGrid(width, height, start)
  {
    && start in visited && (forall c :: c in queue ==> c in visited)
    && (forall c :: c in visited ==> InGrid(width, height, c))
    && IndexSet(width, height, visited) <= FloodRegion(width, height, start, blocked)
    && (forall c :: c in visited && c !in queue ==> Settled(width, height, blocked, visited, c))
  }

  /** A free neighbour of a visited cell is reachable too. */
  lemma StepIsReachable(width: nat, height: nat, start: Coord, blocked: set<Coord>, c: Coord, m: Move)
    requires InGrid(width, height, start) && InGrid(width, height, c) && m in DIRECTIONS
    requires InGrid(width, height, MoveStep(c, m)) && MoveStep(c, m) !in blocked
    requires CellIndex(width, c) in FloodRegion(width, height, start, blocked)
    ensures CellIndex(width, MoveStep(c, m)) in FloodRegion(width, height, start, blocked)
  {
    var d := MoveStep(c, m);
    IndexInRange(width, height, start);
    IndexInRange(width, height, c);
    IndexInRange(width, height, d);
    var g := GridGraph(width, height);
    NeighborsAreSteps(width, height, CellIndex(width, c), CellIndex(width, d));
    assert Edge(g, CellIndex(width, c), CellIndex(width, d));
    ReachesStep(g, Unblocked(width, height, blocked), CellIndex(width, start), CellIndex(width, c), CellIndex(width, d));
  }

  /** With nothing left to expand, every reachable cell has been visited. */
  lemma CoordFloodEnds(width: nat, height: nat, start: Coord, blocked: set<Coord>, visited: set<Coord>)
    requires InGrid(width, height, start) && CoordFlood(width, height, start, blocked, visited, [])
    ensures |visited| == |FloodRegion(width, height, start, blocked)|
  {
    var g, open := GridGraph(width, height), Unblocked(width, height, blocked);
    var seen := IndexSet(width, height, visited);
    IndexInRange(width, height, start);
    forall u, v | u in seen && Edge(g, u, v) && v in open ensures v in seen {
      var c, d := CellCoord(width, u), CellCoord(width, v);
      NeighborsAreSteps(width, height, u, v);
      var m :| m in DIRECTIONS && MoveStep(c, m) == d;
      CoordInRange(width, height, v);
      assert d in visited;
    }
    forall c | c in FloodRegion(width, height, start, blocked) ensures c in seen {
      ReachesStaysInside(g, open, seen, CellIndex(width, start), c);
    }
    assert seen == FloodRegion(width, height, start, blocked);
    IndexSetCount(width, height, visited);
  }

  ghost function CapacityBound(width: int, height: int, start: Coord, blocked: set<Coord>): nat {
    if InGrid(width, height, start) && start !in blocked
    then |FloodRegion(width, height, start, blocked)| else 0
  }

  method FloodCapacity(width: int, height: int, start: Coord, blocked: set<Coord>) returns (capacity: nat)
    ensures capacity == CapacityBound(width, height, start, blocked)
  {
    if !InGrid(width, height, start) || start in blocked {
      return 0;
    }
    var visited, queue := {start}, [start];
    ghost var all := BoardCells(width, height);
    IndexInRange(width, height, start);
    ReachesSelf(GridGraph(width, height), Unblocked(width, height, blocked), CellIndex(width, start));
    assert forall i :: i in IndexSet(width, height, visited) ==> i == CellIndex(width, start) by {
      forall i | i in IndexSet(width, height, visited) ensures i == CellIndex(width, start) {
        CoordInRange(width, height, i);
      }
    }
    while queue != []
      invariant visited <= all
      invariant CoordFlood(width, height, start, blocked, visited, queue)
      decreases |all - visited|, |queue|
    {
      var here := queue[0];
      visited, queue := Expand(width, height, start, blocked, visited, queue, all);
    }
    CoordFloodEnds(width, height, start, blocked, visited);
    capacity := |visited|;
  }

  /** The flood while the first n neighbours of here, which has left the queue, are done. */
  ghost predicate Expanding(width: nat, height: nat, start: Coord, blocked: set<Coord>,
                            visited: set<Coord>, queue: seq<Coord>, here: Coord, n: nat)
    requires InGrid(width, height, start)
  {
    && n <= 4 && here in visited && start in visited && (forall c :: c in queue ==> c in visited)
    && (forall c :: c in visited ==> InGrid(width, height, c))
    && IndexSet(width, height, visited) <= FloodRegion(width, height, start, blocked)
    && (forall c :: c in visited && c !in queue && c != here ==> Settled(width, height, blocked, visited, c))
    && (forall m :: m in DIRECTIONS[..n] ==>
         InGrid(width, height, MoveStep(here, m)) && MoveStep(here, m) !in blocked ==> MoveStep(here, m) in visited)
  }

  lemma ExpandingStarts(width: nat, height: nat, start: Coord, blocked: set<Coord>, visited: set<Coord>, queue: seq<Coord>)
    requires InGrid(width, height, start) && queue != []
    requires CoordFlood(width, height, start, blocked, visited, queue)
    ensures Expanding(width, height, start, blocked, visited, queue[1..], queue[0], 0)
  {
    hide IndexSet, FloodRegion, InGrid;
    assert queue == [queue[0]] + queue[1..];
  }

  lemma ExpandingEnds(width: nat, height: nat, start: Coord, blocked: set<Coord>, visited: set<Coord>, queue: seq<Coord>,
                      here: Coord)
    requires InGrid(width, height, start) && Expanding(width, height, start, blocked, visited, queue, here, 4)
    ensures CoordFlood(width, height, start, blocked, visited, queue)
  {
    hide IndexSet, FloodRegion, InGrid;
    assert DIRECTIONS[..4] == DIRECTIONS;
  }

  lemma ExpandingSkips(width: nat, height: nat, start: Coord, blocked: set<Coord>, visited: set<Coord>, queue: seq<Coord>,
                       here: Coord, n: nat)
    requires InGrid(width, height, start) && n < 4 && Expanding(width, height, start, blocked, visited, queue, here, n)
    requires var d := MoveStep(here, DIRECTIONS[n]); !InGrid(width, height, d) || d in blocked || d in visited
    ensures Expanding(width, height, start, blocked, visited, queue, here, n + 1)
  {
    hide IndexSet, FloodRegion, InGrid;
    assert DIRECTIONS[..n + 1] == DIRECTIONS[..n] + [DIRECTIONS[n]];
  }

  lemma VisitKeepsReachability(width: nat, height: nat, start: Coord, blocked: set<Coord>, visited: set<Coord>,
                               here: Coord, m: Move)
    requires InGrid(width, height, start) && m in DIRECTIONS && here in visited
    requires forall c :: c in visited ==> InGrid(width, height, c)
    requires IndexSet(width, height, visited) <= FloodRegion(width, height, start, blocked)
    requires var d := MoveStep(here, m); InGrid(width, height, d) && d !in blocked && d !in visited
    ensures IndexSet(width, height, visited + {MoveStep(here, m)}) <= FloodRegion(width, height, start, blocked)
  {
    IndexInRange(width, height, here);
    hide FloodRegion, MoveStep;
    StepIsReachable(width, height, start, blocked, here, m);
    IndexSetGrows(width, height, visited, MoveStep(here, m));
  }

  lemma ExpandingVisits(width: nat, height: nat, start: Coord, blocked: set<Coord>, visited: set<Coord>, queue: seq<Coord>,
                        here: Coord, n: nat)
    requires InGrid(width, height, start) && n < 4 && Expanding(width, height, start, blocked, visited, queue, here, n)
    requires var d := MoveStep(here, DIRECTIONS[n]); InGrid(width, height, d) && d !in blocked && d !in visited
    ensures var d := MoveStep(here, DIRECTIONS[n]);
            Expanding(width, height, start, blocked, visited + {d}, queue + [d], here, n + 1)
  {
    hide IndexSet, FloodRegion, InGrid, MoveStep;
    var d := MoveStep(here, DIRECTIONS[n]);
    VisitKeepsReachability(width, height, start, blocked, visited, here, DIRECTIONS[n]);
    assert forall c :: c in visited && Settled(width, height, blocked, visited, c) ==>
      Settled(width, height, blocked, visited + {d}, c);
    assert DIRECTIONS[..n + 1] == DIRECTIONS[..n] + [DIRECTIONS[n]];
  }

  /** Takes the front of the queue and appends its unvisited free neighbours. */
  method Expand(width: nat, height: nat, start: Coord, blocked: set<Coord>, visited0: set<Coord>, queue0: seq<Coord>,
                ghost all: set<Coord>)
    returns (visited: set<Coord>, queue: seq<Coord>)
    requires InGrid(width, height, start) && queue0 != [] && all == BoardCells(width, height) && visited0 <= all
    requires CoordFlood(width, height, start, blocked, visited0, queue0)
    ensures visited0 <= visited <= all
    ensures visited == visited0 ==> |queue| < |queue0|
    ensures visited != visited0 ==> |all - visited| < |all - visited0|
    ensures CoordFlood(width, height, start, blocked, visited, queue)
  {
    hide Expanding, CoordFlood;
    var here := queue0[0];
    visited, queue := visited0, queue0[1..];
    ExpandingStarts(width, height, start, blocked, visited0, queue0);
    for k := 0 to 4
      invariant visited0 <= visited <= all
      invariant visited == visited0 ==> queue == queue0[1..]
      invariant Expanding(width, height, start, blocked, visited, queue, here, k)
    {
      var adjacent := MoveStep(here, DIRECTIONS[k]);
      if InGrid(width, height, adjacent) && adjacent !in blocked && adjacent !in visited {
        ExpandingVisits(width, height, start, blocked, visited, queue, here, k);
        visited := visited + {adjacent};
        queue := queue + [adjacent];
      } else {
        ExpandingSkips(width, height, start, blocked, visited, queue, here, k);
      }
    }
    ExpandingEnds(width, height, start, blocked, visited, queue, here);
    if visited != visited0 {
      SubsetCountStrict(all - visited, all - visited0);
    }
  }

  lemma SubsetCountStrict<T>(a: set<T>, b: set<T>)
    requires a < b
    ensures |a| < |b|
  {
    assert b == a + (b - a);
    assert b - a != {};
  }

  /** All cells covered by some snake. */
  ghost function OccupiedCells(b: Board): set<Coord> {
    set i, p | 0 <= i < |b.snakes| && 0 <= p < |b.snakes[i].body| :: b.snakes[i].body[p]
  }

  /** The prefilter's bound for one command of snake s. */
  ghost function CommandBound(b: Board, s: Snake, m: Move): nat {
    var target := MoveStep(s.Head(), m);
    if target in s.body then 0
    else CapacityBound(b.width, b.height, target, OccupiedCells(b) - {target})
  }

  /** The length the prefilter compares the bound with. */
  function CommandLength(b: Board, s: Snake, m: Move): int {
    s.length + (if MoveStep(s.Head(), m) in b.food then 1 else 0)
  }

  /** What the engine computes after the command: zero when the snake does not survive it. */
  ghost function EngineCapacity(b: Board, s: Snake, m: Move): nat {
    var root := RelaxedRoot(b, s, m);
    if Alive(root, s.id) && OnBoard(root, Lookup(root, s.id).value) && b.width * b.height <= INT_MAX
    then |Region(root, Lookup(root, s.id).value)| else 0
  }

  ghost function EngineLength(b: Board, s: Snake, m: Move): int {
    var root := RelaxedRoot(b, s, m);
    if Lookup(root, s.id).Some? then Lookup(root, s.id).value.EffectiveLength()
    else s.EffectiveLength() + (if MoveStep(s.Head(), m) in b.food then 1 else 0)
  }

  /** A surviving snake has its head on the board. */
  lemma RelaxedRootOnBoard(b: Board, s: Snake, m: Move)
    requires s.body != [] && m != Invalid && Alive(RelaxedRoot(b, s, m), s.id)
    ensures OnBoard(RelaxedRoot(b, s, m), Lookup(RelaxedRoot(b, s, m), s.id).value)
  {}

  lemma RelaxedRootSize(b: Board, s: Snake, m: Move)
    ensures RelaxedRoot(b, s, m).width == b.width && RelaxedRoot(b, s, m).height == b.height
  {}

  /** The engine's evaluation of one command: make it on the relaxed board and measure the region. */
  method EvaluateCommand(b: Board, s: Snake, m: Move) returns (capacity: nat, length: int)
    requires s.body != [] && m != Invalid
    ensures capacity == EngineCapacity(b, s, m) && length == EngineLength(b, s, m)
  {
    hide Step, CoreSearchState.Valid;
    var target := MoveStep(s.Head(), m);
    length := s.EffectiveLength() + (if target in b.food then 1 else 0);
    var state := new CoreSearchState(RelaxedBoard(b, s, m));
    var _ := state.MakeMovesDetailed([Command(s.id, m)], 1);
    var after := state.CurrentBoard();
    var root := after.(food := []);
    assert root == RelaxedRoot(b, s, m);
    var moved := Lookup(root, s.id);
    if moved.Some? {
      length := moved.value.EffectiveLength();
    }
    if Alive(root, s.id) {
      RelaxedRootOnBoard(b, s, m);
    }
    RelaxedRootSize(b, s, m);
    var inCore;
    capacity, inCore := RelaxedStaticCapacity(root, s.id);
  }

  /** Blocking every occupied cell for good leaves no more room than the engine's relaxed position. */
  lemma BoundIsConservative(b: Board, i: nat, m: Move)
    requires i < |b.snakes| && b.snakes[i].body != [] && m != Invalid && b.width * b.height <= INT_MAX
    ensures CommandBound(b, b.snakes[i], m) <= EngineCapacity(b, b.snakes[i], m)
  {
    var s := b.snakes[i];
    var target := MoveStep(s.Head(), m);
    if target !in s.body && b.InBounds(target) {
      RelaxedRootMoves(b, s, m);
      var root := RelaxedRoot(b, s, m);
      var moved := Lookup(root, s.id).value;
      var width: nat, height: nat := b.width, b.height;
      var g := GridGraph(width, height);
      var tight, loose := Unblocked(width, height, OccupiedCells(b) - {target}), FreeCells(root, moved);
      IndexInRange(width, height, target);
      forall c | c in tight ensures c in loose {
        TightCellIsLoose(b, i, m, c);
      }
      forall c | c in Component(g, tight, CellIndex(width, target)) ensures c in Region(root, moved) {
        ReachesMonotone(g, tight, loose, CellIndex(width, target), c);
      }
      SubsetCount(Component(g, tight, CellIndex(width, target)), Region(root, moved));
    }
  }

  lemma TightCellIsLoose(b: Board, i: nat, m: Move, c: nat)
    requires i < |b.snakes| && b.snakes[i].body != [] && m != Invalid
    requires var target := MoveStep(b.snakes[i].Head(), m);
             && b.InBounds(target) && target !in b.snakes[i].body
             && c in Unblocked(b.width, b.height, OccupiedCells(b) - {target})
    ensures var target := MoveStep(b.snakes[i].Head(), m);
            var body := BodyAfter(b.snakes[i].body, target, target in b.food);
            CellCoord(b.width, c) !in body || c == CellIndex(b.width, target)
  {}

  /** Profile entry of one command: whether it was evaluated, and how many replies leave the snake alive. */
  datatype CommandProfile = CommandProfile(move: Move, evaluated: bool, aliveReplies: int)

  ghost predicate Fits(b: Board, s: Snake, m: Move) {
    CommandBound(b, s, m) >= CommandLength(b, s, m)
  }

  method OccupiedSet(b: Board) returns (cells: set<Coord>)
    ensures cells == OccupiedCells(b)
  {
    cells := {};
    for i := 0 to |b.snakes|
      invariant cells == set x, p | 0 <= x < i && 0 <= p < |b.snakes[x].body| :: b.snakes[x].body[p]
    {
      cells := cells + set p | 0 <= p < |b.snakes[i].body| :: b.snakes[i].body[p];
    }
  }

  /** Whether the static bounds cannot rule out a capacity-deficient command. */
  method ShouldRunDiagnostics(b: Board, s: Snake, profile: seq<CommandProfile>) returns (run: bool)
    ensures run <==>
      && (exists k :: 0 <= k < |profile| && profile[k].evaluated && profile[k].aliveReplies > 0)
      && (exists k :: 0 <= k < |profile| && profile[k].evaluated && !Fits(b, s, profile[k].move))
  {
    if !exists k | 0 <= k < |profile| :: profile[k].evaluated && profile[k].aliveReplies > 0 {
      return false;
    }
    var occupied := OccupiedSet(b);
    for k := 0 to |profile|
      invariant forall l :: 0 <= l < k && profile[l].evaluated ==> Fits(b, s, profile[l].move)
    {
      if profile[k].evaluated {
        var target := MoveStep(s.Head(), profile[k].move);
        var capacity := 0;
        if target !in s.body {
          capacity := FloodCapacity(b.width, b.height, target, occupied - {target});
        }
        var postMoveLength := s.length + (if target in b.food then 1 else 0);
        if capacity < postMoveLength {
          assert !Fits(b, s, profile[k].move);
          return true;
        }
      }
    }
    run := false;
  }

  /**
   A command whose bound fits is never capacity-deficient for the engine, provided
   the recorded length is at least the body length.
   */
  lemma FittingCommandIsNotDeficient(b: Board, i: nat, m: Move)
    requires i < |b.snakes| && b.snakes[i].body != [] && m != Invalid && b.width * b.height <= INT_MAX
    requires |b.snakes[i].body| <= b.snakes[i].length && Fits(b, b.snakes[i], m)
    ensures EngineCapacity(b, b.snakes[i], m) >= EngineLength(b, b.snakes[i], m)
  {
    var s := b.snakes[i];
    BoundIsConservative(b, i, m);
    RelaxedRootMoves(b, s, m);
  }
}

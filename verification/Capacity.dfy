/**
 The relaxed static capacity on a board, and the relaxed root position it is
 evaluated in: the snake alone, with plenty of health, after one command.
 */
module Capacity {
  import opened Grid
  import opened Graphs
  import opened Boards
  import opened Optional
  import opened Limits
  import opened FloodFill
  import opened Counting

  lemma GridGraphSimple(width: nat, height: nat)
    ensures Simple(GridGraph(width, height))
  {}

  ghost predicate OnBoard(b: Board, s: Snake) {
    b.width > 0 && b.height > 0 && s.body != [] && b.InBounds(s.body[0])
  }

  /** The cells a snake may use: those its body does not cover, and its head cell. */
  ghost function FreeCells(b: Board, s: Snake): (r: set<nat>)
    requires OnBoard(b, s)
    ensures forall c: nat ::
      c in r <==> (c < b.width * b.height && (CellCoord(b.width, c) !in s.body || c == CellIndex(b.width, s.body[0])))
  {
    set c | c in Below(b.width * b.height) &&
      (CellCoord(b.width, c) !in s.body || c == CellIndex(b.width, s.body[0]))
  }

  /** The region the head is connected to. */
  ghost function Region(b: Board, s: Snake): set<nat>
    requires OnBoard(b, s)
  {
    IndexInRange(b.width, b.height, s.body[0]);
    Component(GridGraph(b.width, b.height), FreeCells(b, s), CellIndex(b.width, s.body[0]))
  }

  /** Marks the cells under the body, except the head's. */
  method BlockBody(b: Board, s: Snake, blocked: array<Mark>)
    requires OnBoard(b, s) && blocked.Length == b.width * b.height
    requires forall c :: 0 <= c < blocked.Length ==> blocked[c] == Free
    modifies blocked
    ensures OpenCells(blocked[..]) == FreeCells(b, s)
  {
    IndexInRange(b.width, b.height, s.body[0]);
    for i := 0 to |s.body|
      invariant forall c :: 0 <= c < blocked.Length ==>
        (blocked[c] == Free <==> CellCoord(b.width, c) !in s.body[..i])
    {
      if b.InBounds(s.body[i]) {
        IndexInRange(b.width, b.height, s.body[i]);
        blocked[CellIndex(b.width, s.body[i])] := Body;
      }
      forall c | 0 <= c < blocked.Length
        ensures blocked[c] == Free <==> CellCoord(b.width, c) !in s.body[..i + 1]
      {
        CoordInRange(b.width, b.height, c);
        assert s.body[..i + 1] == s.body[..i] + [s.body[i]];
      }
    }
    assert s.body[..|s.body|] == s.body;
    blocked[CellIndex(b.width, s.body[0])] := Free;
    forall c | 0 <= c < blocked.Length
      ensures c in OpenCells(blocked[..]) <==> c in FreeCells(b, s)
    {
    }
  }

  /** Region size, and whether the head lies in the region's two-core. */
  method RelaxedStaticCapacity(b: Board, id: string) returns (capacity: nat, headInCore: bool)
    requires Alive(b, id) && b.width > 0 && b.height > 0 ==> b.InBounds(Lookup(b, id).value.body[0])
    ensures !Alive(b, id) || b.width <= 0 || b.height <= 0 || b.width * b.height > INT_MAX ==>
      capacity == 0 && !headInCore
    ensures Alive(b, id) && b.width > 0 && b.height > 0 && b.width * b.height <= INT_MAX ==>
      var s := Lookup(b, id).value;
      && capacity == |Region(b, s)|
      && (headInCore <==> InTwoCore(GridGraph(b.width, b.height), Region(b, s), CellIndex(b.width, s.body[0])))
  {
    var found := Lookup(b, id);
    if found.None? || found.value.body == [] || b.width <= 0 || b.height <= 0 || b.width * b.height > INT_MAX {
      return 0, false;
    }
    var s := found.value;
    var width: nat, height: nat := b.width, b.height;
    var cells := width * height;
    IndexInRange(width, height, s.body[0]);
    var start: nat := CellIndex(width, s.body[0]);
    var g := GridGraph(width, height);
    GridGraphWellFormed(width, height);
    GridGraphSimple(width, height);
    hide Neighbors, Simple, WellFormed, Symmetric;
    var blocked := new Mark[cells](_ => Free);
    var visited := new bool[cells](_ => false);
    var queue := new nat[cells](_ => 0);
    BlockBody(b, s, blocked);
    capacity := Flood(g, start, blocked, visited, queue);
    ghost var region := Region(b, s);
    RegionFree(b, s);
    var degree := new int[cells](_ => 0);
    headInCore := Peel(g, start, blocked, visited, degree, queue, region);
  }

  lemma WalkEndsOpen(g: Graph, open: set<nat>, a: nat, c: nat)
    requires Reaches(g, open, a, c) && a in open
    ensures c in open
  {
    var p :| IsWalkBetween(g, open, a, c, p);
    if |p| > 1 {
      var i := |p| - 2;
      assert p[i + 1] in open;
    }
  }

  lemma RegionFree(b: Board, s: Snake)
    requires OnBoard(b, s)
    ensures Region(b, s) <= FreeCells(b, s) && Region(b, s) <= AllVertices(GridGraph(b.width, b.height))
    ensures CellIndex(b.width, s.body[0]) in Region(b, s)
  {
    var g, start := GridGraph(b.width, b.height), CellIndex(b.width, s.body[0]);
    IndexInRange(b.width, b.height, s.body[0]);
    ReachesSelf(g, FreeCells(b, s), start);
    forall c | c in Region(b, s) ensures c in FreeCells(b, s) {
      WalkEndsOpen(g, FreeCells(b, s), start, c);
    }
  }

  const AMPLE_HEALTH: int := INT_MAX / 4

  /** The snake alone on a standard board, with the food it is about to eat. */
  function RelaxedBoard(b: Board, s: Snake, m: Move): Board {
    var target := MoveStep(s.Head(), m);
    Board(b.width, b.height, [s.(health := AMPLE_HEALTH)], if target in b.food then [target] else [], [], "standard", 0)
  }

  ghost function RelaxedRoot(b: Board, s: Snake, m: Move): Board {
    Step(RelaxedBoard(b, s, m), [Command(s.id, m)]).(food := [])
  }

  /** A snake that steps onto a free cell of the board survives in the relaxed position, moved by one step. */
  lemma RelaxedRootMoves(b: Board, s: Snake, m: Move)
    requires s.body != [] && m != Invalid
    requires var target := MoveStep(s.Head(), m); b.InBounds(target) && target !in s.body
    ensures var target := MoveStep(s.Head(), m);
            var body := BodyAfter(s.body, target, target in b.food);
            && Alive(RelaxedRoot(b, s, m), s.id)
            && Lookup(RelaxedRoot(b, s, m), s.id).value.body == body
            && Lookup(RelaxedRoot(b, s, m), s.id).value.length == |body|
  {}
}

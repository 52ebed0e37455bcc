/**
 The times from which body cells are expected to be free again.
 */
module VacateTimes {
  import opened Grid
  import opened Boards
  import opened TimeWindows
  import SafeMoves

  /** Turns by which the tail of s is expected to stay longer. */
  function TailDelay(b: Board, id: string, s: Snake): int
    requires s.body != []
  {
    if b.Constrictor() then NEVER
    else if s.id == id then (if s.body[|s.body| - 1] in b.food then 1 else 0)
    else (if SafeMoves.CanEatNextTurn(b, s) then 1 else 0)
  }

  /** The time from which segment j is expected to be gone. */
  function SegmentVacate(b: Board, id: string, s: Snake, j: nat): int
    requires j < |s.body|
  {
    if TailDelay(b, id, s) < NEVER && |s.body| - j + TailDelay(b, id, s) < NEVER then
      |s.body| - j + TailDelay(b, id, s)
    else NEVER
  }

  /** Segment j of snake i comes before position (n, m) in reading order and lies on c. */
  ghost predicate Covers(b: Board, n: nat, m: nat, i: nat, j: nat, c: Coord) {
    && i < |b.snakes| && j < |b.snakes[i].body| && b.snakes[i].body[j] == c
    && (i < n || (i == n && j < m))
  }

  /** v is the latest time at which a segment before (n, m) leaves c, or zero when none lies there. */
  ghost predicate VacatesAt(b: Board, id: string, n: nat, m: nat, c: Coord, v: int) {
    && (forall i: nat, j: nat :: Covers(b, n, m, i, j, c) ==> SegmentVacate(b, id, b.snakes[i], j) <= v)
    && (v == 0 || exists i: nat, j: nat :: Covers(b, n, m, i, j, c) && SegmentVacate(b, id, b.snakes[i], j) == v)
  }

  lemma SegmentCounts(b: Board, id: string, i: nat, j: nat, c: Coord, v: int)
    requires i < |b.snakes| && j < |b.snakes[i].body| && VacatesAt(b, id, i, j, c, v)
    ensures var t := SegmentVacate(b, id, b.snakes[i], j);
            VacatesAt(b, id, i, j + 1, c, if b.snakes[i].body[j] == c && t > v then t else v)
  {}

  lemma SnakeDone(b: Board, id: string, i: nat, c: Coord, v: int)
    requires i < |b.snakes| && VacatesAt(b, id, i, |b.snakes[i].body|, c, v)
    ensures VacatesAt(b, id, i + 1, 0, c, v)
  {
    forall x: nat, y: nat ensures Covers(b, i + 1, 0, x, y, c) <==> Covers(b, i, |b.snakes[i].body|, x, y, c) {}
  }

  method FillVacateTimes(b: Board, id: string, vacate: array<int>)
    requires b.width > 0 && b.height > 0 && vacate.Length == b.width * b.height
    requires forall c :: 0 <= c < vacate.Length ==> vacate[c] == 0
    modifies vacate
    ensures forall c :: 0 <= c < vacate.Length ==>
      0 <= vacate[c] <= NEVER && VacatesAt(b, id, |b.snakes|, 0, CellCoord(b.width, c), vacate[c])
  {
    hide SegmentVacate, VacatesAt;
    forall c | 0 <= c < vacate.Length ensures VacatesAt(b, id, 0, 0, CellCoord(b.width, c), 0) {
      NothingCovers(b, id, CellCoord(b.width, c));
    }
    for i := 0 to |b.snakes|
      invariant forall c :: 0 <= c < vacate.Length ==>
        0 <= vacate[c] <= NEVER && VacatesAt(b, id, i, 0, CellCoord(b.width, c), vacate[c])
    {
      var body := b.snakes[i].body;
      for j := 0 to |body|
        invariant forall c :: 0 <= c < vacate.Length ==>
          0 <= vacate[c] <= NEVER && VacatesAt(b, id, i, j, CellCoord(b.width, c), vacate[c])
      {
        FillSegment(b, id, i, j, vacate);
      }
      forall c | 0 <= c < vacate.Length ensures VacatesAt(b, id, i + 1, 0, CellCoord(b.width, c), vacate[c]) {
        SnakeDone(b, id, i, CellCoord(b.width, c), vacate[c]);
      }
    }
  }

  lemma NothingCovers(b: Board, id: string, c: Coord)
    ensures VacatesAt(b, id, 0, 0, c, 0)
  {}

  method FillSegment(b: Board, id: string, i: nat, j: nat, vacate: array<int>)
    requires b.width > 0 && b.height > 0 && vacate.Length == b.width * b.height
    requires i < |b.snakes| && j < |b.snakes[i].body|
    requires forall c :: 0 <= c < vacate.Length ==>
      0 <= vacate[c] <= NEVER && VacatesAt(b, id, i, j, CellCoord(b.width, c), vacate[c])
    modifies vacate
    ensures forall c :: 0 <= c < vacate.Length ==>
      0 <= vacate[c] <= NEVER && VacatesAt(b, id, i, j + 1, CellCoord(b.width, c), vacate[c])
  {
    var s := b.snakes[i];
    assert SegmentVacate(b, id, s, j) <= NEVER;
    hide SegmentVacate, VacatesAt;
    forall c | 0 <= c < vacate.Length
      ensures var t := SegmentVacate(b, id, s, j);
              VacatesAt(b, id, i, j + 1, CellCoord(b.width, c),
                        if s.body[j] == CellCoord(b.width, c) && t > vacate[c] then t else vacate[c])
    {
      SegmentCounts(b, id, i, j, CellCoord(b.width, c), vacate[c]);
    }
    forall c | 0 <= c < vacate.Length && b.InBounds(s.body[j])
      ensures 0 <= CellIndex(b.width, s.body[j]) < vacate.Length
      ensures CellCoord(b.width, c) == s.body[j] <==> c == CellIndex(b.width, s.body[j])
    {
      IndexInRange(b.width, b.height, s.body[j]);
      CoordInRange(b.width, b.height, c);
    }
    forall c | 0 <= c < vacate.Length && !b.InBounds(s.body[j]) ensures CellCoord(b.width, c) != s.body[j] {
      CoordInRange(b.width, b.height, c);
    }
    if b.InBounds(s.body[j]) {
      IndexInRange(b.width, b.height, s.body[j]);
      var time := SegmentVacate(b, id, s, j);
      var index := CellIndex(b.width, s.body[j]);
      if time > vacate[index] {
        vacate[index] := time;
      }
    }
  }

  method MarkHazards(b: Board, vacate: array<int>)
    requires b.width > 0 && b.height > 0 && vacate.Length == b.width * b.height
    modifies vacate
    ensures forall c :: 0 <= c < vacate.Length ==>
      vacate[c] == if CellCoord(b.width, c) in b.hazards then NEVER else old(vacate[c])
  {
    for h := 0 to |b.hazards|
      invariant forall c :: 0 <= c < vacate.Length ==>
        vacate[c] == if CellCoord(b.width, c) in b.hazards[..h] then NEVER else old(vacate[c])
    {
      if b.InBounds(b.hazards[h]) {
        IndexInRange(b.width, b.height, b.hazards[h]);
        vacate[CellIndex(b.width, b.hazards[h])] := NEVER;
      }
      forall c | 0 <= c < vacate.Length
        ensures vacate[c] == if CellCoord(b.width, c) in b.hazards[..h + 1] then NEVER else old(vacate[c])
      {
        CoordInRange(b.width, b.height, c);
        assert b.hazards[..h + 1] == b.hazards[..h] + [b.hazards[h]];
      }
    }
    assert b.hazards[..|b.hazards|] == b.hazards;
  }
}

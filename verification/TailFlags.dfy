/**
 When the tail flag and the death flag can be trusted: the search stops with the last cell to be
 reached, and misses later returns to the head's cell, where the tail of a stacked body lies.
 */
module TailFlags {
  import opened Graphs
  import opened Grid
  import opened Boards
  import opened Optional
  import opened Limits
  import opened Counting
  import opened TimeWindows
  import opened SearchOrder
  import opened VacateTimes
  import opened OpponentArrival
  import opened SpaceTime
  import opened ShortRecords

  /** The named snake has a body of n segments, with its tail on its head's cell or not. */
  ghost predicate Segments(b: Board, id: string, n: nat, under: bool) {
    Alive(b, id) && |Lookup(b, id).value.body| == n
    && (Lookup(b, id).value.body[n - 1] == Lookup(b, id).value.body[0] <==> under)
  }

  /** The tail cell can be entered in the end. */
  ghost predicate CanEnterTail(b: Board, id: string, lo: seq<int>, hi: seq<int>)
    requires b.width > 0 && b.height > 0 && Alive(b, id)
  {
    var body := Lookup(b, id).value.body;
    && b.InBounds(body[0]) && CellIndex(b.width, body[0]) >= 0
    && TailEnterable(Field(GridGraph(b.width, b.height), lo, hi), CellIndex(b.width, body[0]), CellOf(b, body[|body| - 1]))
  }

  ghost predicate FlagRight(b: Board, id: string, lo: seq<int>, hi: seq<int>, m: Metrics)
    requires b.width > 0 && b.height > 0 && Alive(b, id)
  {
    m.tailReachable <==> CanEnterTail(b, id, lo, hi)
  }

  ghost predicate DeathRight(b: Board, id: string, lo: seq<int>, hi: seq<int>, m: Metrics)
    requires b.width > 0 && b.height > 0 && Alive(b, id)
  {
    m.dead <==> !CanEnterTail(b, id, lo, hi) && m.reachableCells < Lookup(b, id).value.EffectiveLength()
  }

  lemma TailIsStart(b: Board, c: Coord, d: Coord)
    requires b.width > 0 && b.height > 0 && b.InBounds(c)
    ensures CellOf(b, d) == CellIndex(b.width, c) <==> d == c
    ensures 0 <= CellIndex(b.width, c) < b.width * b.height == |GridGraph(b.width, b.height)|
  {
    IndexInRange(b.width, b.height, c);
    if b.InBounds(d) {
      IndexInRange(b.width, b.height, d);
    }
  }

  /** Some segment leaves the head's cell only when the whole body has passed. */
  lemma HeadSegmentLeaves(b: Board, id: string, c: Coord, v: int)
    requires Alive(b, id) && Lookup(b, id).value.body[0] == c && VacatesAt(b, id, |b.snakes|, 0, c, v)
    ensures v >= NEVER || v >= |Lookup(b, id).value.body|
  {
    var i := FindSnake(b.snakes, id);
    assert Covers(b, |b.snakes|, 0, i, 0, c);
  }

  lemma HeadIsCovered(b: Board, id: string, lo: seq<int>)
    requires Alive(b, id) && FreeFrom(b, Lookup(b, id).value, lo) && b.InBounds(Lookup(b, id).value.body[0])
    ensures var s := Lookup(b, id).value;
            var start := CellIndex(b.width, s.body[0]);
            0 <= start < |lo| && (lo[start] >= NEVER || lo[start] >= |s.body|)
  {
    hide VacatesAt, SegmentVacate;
    var s := Lookup(b, id).value;
    TailIsStart(b, s.body[0], s.body[0]);
    IndexInRange(b.width, b.height, s.body[0]);
    var start := CellIndex(b.width, s.body[0]);
    if lo[start] < NEVER {
      HeadSegmentLeaves(b, id, s.body[0], lo[start]);
    }
  }

  lemma WindowsClose(b: Board, s: Snake, lo: seq<int>, hi: seq<int>, c: nat)
    requires RivalsFrom(b, s, lo, hi) && c < |lo| && lo[c] >= NEVER
    ensures forall src: set<nat>, t: nat :: t > 0 ==> c !in At(Field(GridGraph(b.width, b.height), lo, hi), src, t)
  {}

  /** A body of NEVER segments never leaves its head's cell. */
  lemma LongBodyStays(b: Board, id: string, lo: seq<int>, hi: seq<int>, latest: nat, own: seq<int>, m: Metrics)
    requires Measured(b, id, lo, hi, latest, own, m) && Segments(b, id, |Lookup(b, id).value.body|, true)
    requires |Lookup(b, id).value.body| >= NEVER
    ensures !CanEnterTail(b, id, lo, hi)
  {
    hide FreeFrom, RivalsFrom, Exact, At;
    var s := Lookup(b, id).value;
    HeadIsCovered(b, id, lo);
    TailIsStart(b, s.body[0], s.body[|s.body| - 1]);
    WindowsClose(b, s, lo, hi, CellIndex(b.width, s.body[0]));
  }

  lemma GridNeighbor(b: Board, u: nat, v: nat)
    requires b.width > 0 && b.height > 0 && Edge(GridGraph(b.width, b.height), u, v)
    ensures u != v && u < b.width * b.height && v < b.width * b.height
  {
    GridGraphWellFormed(b.width, b.height);
  }

  /** On two cells nobody comes back to a cell that is still covered after two steps. */
  lemma {:induction false} NoRoomToWait(f: Field, start: nat, t: nat)
    requires Shaped(f) && |f.g| == 2 && (forall u: nat, v: nat :: Edge(f.g, u, v) ==> u != v)
    requires start < 2 && f.lo[start] > 2 && t > 0
    ensures start !in At(f, {start}, t)
    ensures t > 1 ==> At(f, {start}, t) == {}
  {
    if t > 1 {
      NoRoomToWait(f, start, t - 1);
    }
    forall c: nat | c in At(f, {start}, t) ensures t == 1 && c != start {
      var u :| u in At(f, {start}, t - 1) && Steps(f, u, t, c);
      assert Edge(f.g, u, c) && c < 2;
    }
  }

  lemma TwoCellsStay(b: Board, id: string, lo: seq<int>, hi: seq<int>, latest: nat, own: seq<int>, m: Metrics)
    requires Measured(b, id, lo, hi, latest, own, m) && Segments(b, id, |Lookup(b, id).value.body|, true)
    requires b.width * b.height == 2 < |Lookup(b, id).value.body|
    ensures !CanEnterTail(b, id, lo, hi)
  {
    var s, f := Lookup(b, id).value, Field(GridGraph(b.width, b.height), lo, hi);
    WindowsSettle(b, s, f, latest);
    hide FreeFrom, RivalsFrom, Exact, At, GridGraph;
    HeadIsCovered(b, id, lo);
    TailIsStart(b, s.body[0], s.body[|s.body| - 1]);
    forall u: nat, v: nat | Edge(f.g, u, v) ensures u != v {
      GridNeighbor(b, u, v);
    }
    forall t: nat | t > 0 ensures CellIndex(b.width, s.body[0]) !in At(f, {CellIndex(b.width, s.body[0])}, t) {
      NoRoomToWait(f, CellIndex(b.width, s.body[0]), t);
    }
  }

  /** With the tail elsewhere, or never to leave, the flag is right. */
  lemma FlagHolds(b: Board, id: string, lo: seq<int>, hi: seq<int>, latest: nat, own: seq<int>, m: Metrics, n: nat, under: bool)
    requires Measured(b, id, lo, hi, latest, own, m) && Segments(b, id, n, under) && (under ==> n >= NEVER)
    ensures FlagRight(b, id, lo, hi, m)
  {
    var s, f := Lookup(b, id).value, Field(GridGraph(b.width, b.height), lo, hi);
    WindowsSettle(b, s, f, latest);
    hide FreeFrom, RivalsFrom, Tally, TailEnterable, GridGraph;
    TailIsStart(b, s.body[0], s.body[n - 1]);
    if under {
      LongBodyStays(b, id, lo, hi, latest, own, m);
      if m.tailReachable {
        ToldIsTrue(f, CellIndex(b.width, s.body[0]), CellOf(b, s.body[n - 1]), own, m);
      }
    }
  }

  lemma DeathHolds(b: Board, id: string, lo: seq<int>, hi: seq<int>, latest: nat, own: seq<int>, m: Metrics, n: nat, length: int,
                   under: bool)
    requires Measured(b, id, lo, hi, latest, own, m) && Segments(b, id, n, under)
    requires Lookup(b, id).value.EffectiveLength() == length
    requires under && n < NEVER ==> length < 2 || (length == 2 && n > 2)
    ensures DeathRight(b, id, lo, hi, m)
  {
    if !under || n >= NEVER {
      FlagHolds(b, id, lo, hi, latest, own, m, n, under);
    } else {
      var s, f := Lookup(b, id).value, Field(GridGraph(b.width, b.height), lo, hi);
      WindowsSettle(b, s, f, latest);
      hide FreeFrom, RivalsFrom, Tally, TailEnterable, GridGraph;
      TailIsStart(b, s.body[0], s.body[n - 1]);
      if m.tailReachable {
        ToldIsTrue(f, CellIndex(b.width, s.body[0]), CellOf(b, s.body[n - 1]), own, m);
      }
      if b.width * b.height == 2 < n {
        TwoCellsStay(b, id, lo, hi, latest, own, m);
      }
    }
  }

  lemma StepsOn(f: Field, src: set<nat>, t: nat, u: nat, v: nat)
    requires t > 0 && u in At(f, src, t - 1) && Steps(f, u, t, v)
    ensures v in At(f, src, t)
  {}

  /** The windows of a strip whose first cell stays covered for n turns. */
  ghost function StripField(cells: nat, n: nat): (f: Field)
    requires cells > 0
    ensures Shaped(f) && |f.g| == cells
  {
    GridGraphWellFormed(cells, 1);
    Field(GridGraph(cells, 1), seq(cells, c => if c == 0 then n else 0), seq(cells, _ => NEVER))
  }

  lemma StripSteps(cells: nat, n: nat, u: nat, t: nat, v: nat)
    requires cells > 0
    ensures Steps(StripField(cells, n), u, t, v) <==>
      u < cells && v < cells && (v == u + 1 || u == v + 1) && (v == 0 ==> n <= t) && t < NEVER
  {
    if u < cells {
      NeighborsByRow(cells, 1, u, u, 0);
    }
  }

  /** The snake runs along the strip one cell a turn, no faster. */
  lemma {:induction false} StripBound(cells: nat, n: nat, t: nat, v: nat)
    requires cells > 0 && v in At(StripField(cells, n), {0}, t)
    ensures v <= t
  {
    hide StripField;
    if t > 0 {
      var u :| u in At(StripField(cells, n), {0}, t - 1) && Steps(StripField(cells, n), u, t, v);
      StripSteps(cells, n, u, t, v);
      StripBound(cells, n, t - 1, u);
    }
  }

  lemma {:induction false} StripRun(cells: nat, n: nat, t: nat)
    requires t < cells <= NEVER
    ensures t in At(StripField(cells, n), {0}, t)
  {
    hide StripField;
    if t > 0 {
      StripRun(cells, n, t - 1);
      StripSteps(cells, n, t - 1, t, t);
      StepsOn(StripField(cells, n), {0}, t, t - 1, t);
    }
  }

  /** It can go to and fro at the far end of three cells. */
  lemma {:induction false} StripWait(n: nat, t: nat)
    requires 0 < t < NEVER
    ensures (if t % 2 == 1 then 1 else 2) in At(StripField(3, n), {0}, t)
  {
    hide StripField;
    if t == 1 {
      StripRun(3, n, 1);
    } else {
      StripWait(n, t - 1);
      var u, v := if t % 2 == 1 then 2 else 1, if t % 2 == 1 then 1 else 2;
      StripSteps(3, n, u, t, v);
      StepsOn(StripField(3, n), {0}, t, u, v);
    }
  }

  /** So short a strip that all of it is reached before the first cell is free. */
  function Cells(n: nat): (cells: nat)
    ensures cells > 0
  {
    if n <= 2 then 2 else 3
  }

  lemma StripReturn(n: nat)
    requires 1 <= n < NEVER
    ensures TailEnterable(StripField(Cells(n), n), 0, 0)
  {
    hide StripField, At;
    var cells := Cells(n);
    var f, t := StripField(cells, n), if n == 1 then 2 else if n % 2 == 0 then n else n + 1;
    if cells == 2 {
      StripRun(cells, n, 1);
    } else {
      StripWait(n, t - 1);
    }
    StripSteps(cells, n, 1, t, 0);
    StepsOn(f, {0}, t, 1, 0);
  }

  lemma NoEarlyReturn(n: nat, t: nat)
    requires 0 < t < Cells(n)
    ensures 0 !in At(StripField(Cells(n), n), {0}, t)
  {
    var f := StripField(Cells(n), n);
    forall u: nat | u in At(f, {0}, t - 1) ensures !Steps(f, u, t, 0) {
      StripSteps(Cells(n), n, u, t, 0);
    }
  }

  ghost function StripMetrics(n: nat, length: int): Metrics {
    Metrics(Cells(n) - 1, Cells(n) - 1, false, Cells(n) - 1 < length)
  }

  lemma StripArrivals(n: nat, c: nat)
    requires n >= 1 && c < Cells(n)
    ensures LeastArrival(StripField(Cells(n), n), {0}, c, c)
  {
    var cells := Cells(n);
    hide StripField, At;
    StripRun(cells, n, c);
    forall t: nat | t < c ensures c !in At(StripField(cells, n), {0}, t) {
      if c in At(StripField(cells, n), {0}, t) {
        StripBound(cells, n, t, c);
      }
    }
  }

  /** Nothing is told of the return, which comes too late. */
  lemma StripUntold(n: nat, own: seq<int>, m: Metrics)
    requires m.maxArrival == Cells(n) - 1 == m.reachableCells
    ensures !TailTold(StripField(Cells(n), n), 0, 0, own, m)
  {
    var f := StripField(Cells(n), n);
    hide StripField, At, Layer;
    forall t: nat | 0 < t < Cells(n) ensures 0 !in At(f, {0}, t) {
      NoEarlyReturn(n, t);
    }
    LayerIsAt(f, 0, Cells(n) - 1, 0);
  }

  lemma StripExact(n: nat, length: int)
    requires n >= 1
    ensures Exact(StripField(Cells(n), n), 0, 0, length, seq(Cells(n), c => c), StripMetrics(n, length))
  {
    var cells := Cells(n);
    var own := seq(cells, c => c);
    hide StripField, LeastArrival, TailTold;
    forall c | 0 <= c < cells ensures LeastArrival(StripField(cells, n), {0}, c, own[c]) {
      StripArrivals(n, c);
    }
    assert ReachedCells(0, own) == Below(cells) - {0};
    assert cells - 1 in ReachedCells(0, own);
    StripUntold(n, own, StripMetrics(n, length));
  }

  /** There is no rival. */
  lemma StripRivals(n: nat, length: int)
    ensures var b, f := Strip(Cells(n), n, length), StripField(Cells(n), n);
            RivalsFrom(b, b.snakes[0], f.lo, f.hi)
  {
    var b, f := Strip(Cells(n), n, length), StripField(Cells(n), n);
    hide At, GridGraph;
    assert RivalHeads(b, "a", None, b.snakes[0].EffectiveLength(), INT_MAX) == {};
    forall t: nat ensures At(VacantField(f.g, f.lo, NEVER), {}, t) == {} {
      NowhereAtAll(VacantField(f.g, f.lo, NEVER), t);
    }
  }

  lemma StripCell(cells: nat, c: nat)
    requires c < cells
    ensures CellCoord(cells, c) == Coord(c, 0)
  {
    CellUnique(cells, c, c, 0);
  }

  lemma StripFree(n: nat, length: int)
    requires 1 <= n < NEVER
    ensures var b, lo := Strip(Cells(n), n, length), StripField(Cells(n), n).lo;
            FreeFrom(b, b.snakes[0], lo) && LatestOf(lo, n)
  {
    var b, lo := Strip(Cells(n), n, length), StripField(Cells(n), n).lo;
    hide GridGraph, VacatesAt;
    forall c | 0 <= c < |lo| ensures VacatesAt(b, "a", 1, 0, CellCoord(Cells(n), c), lo[c]) {
      StripVacates(n, length, c);
    }
    assert lo[0] == n;
  }

  lemma StripMeasured(n: nat, length: int)
    requires 1 <= n < NEVER && length >= 1
    ensures var f := StripField(Cells(n), n);
            Measured(Strip(Cells(n), n, length), "a", f.lo, f.hi, n, seq(Cells(n), c => c), StripMetrics(n, length))
  {
    hide Exact, GridGraph, FreeFrom, RivalsFrom, LatestOf, StripMetrics;
    StripExact(n, length);
    StripRivals(n, length);
    StripFree(n, length);
    var b := Strip(Cells(n), n, length);
    assert Lookup(b, "a") == Some(b.snakes[0]);
  }

  lemma StripVacates(n: nat, length: int, c: nat)
    requires 1 <= n < NEVER && c < Cells(n)
    ensures VacatesAt(Strip(Cells(n), n, length), "a", 1, 0, CellCoord(Cells(n), c), StripField(Cells(n), n).lo[c])
  {
    var b := Strip(Cells(n), n, length);
    StripCell(Cells(n), c);
    if c == 0 {
      assert Covers(b, 1, 0, 0, 0, Coord(0, 0));
    }
  }

  /** A body of n segments stacked on one cell, and metrics that deny it the return it can make. */
  lemma StackedTailMisleads(n: nat, length: int)
    returns (b: Board, lo: seq<int>, hi: seq<int>, own: seq<int>, m: Metrics)
    requires 1 <= n < NEVER && length >= 1
    ensures Measured(b, "a", lo, hi, n, own, m) && Segments(b, "a", n, true)
    ensures Lookup(b, "a").value.EffectiveLength() == length
    ensures !m.tailReachable && CanEnterTail(b, "a", lo, hi)
    ensures m.dead <==> length >= 3 || (length == 2 && n <= 2)
  {
    hide Measured, TailEnterable;
    var f := StripField(Cells(n), n);
    b, lo, hi, own, m := Strip(Cells(n), n, length), f.lo, f.hi, seq(Cells(n), c => c), StripMetrics(n, length);
    StripMeasured(n, length);
    StripReturn(n);
    assert Lookup(b, "a") == Some(b.snakes[0]);
    assert f == Field(GridGraph(b.width, b.height), lo, hi);
  }

  /**
   For bodies of n segments the tail flag is right on all boards exactly when the tail does not lie
   under the head, or stays there for ever.
   */
  lemma FlagRightExactly(n: nat, under: bool)
    ensures !under || n == 0 || n >= NEVER <==>
      forall b: Board, id: string, lo: seq<int>, hi: seq<int>, latest: nat, own: seq<int>, m: Metrics ::
        Measured(b, id, lo, hi, latest, own, m) && Segments(b, id, n, under) ==> FlagRight(b, id, lo, hi, m)
  {
    hide Exact, FreeFrom, RivalsFrom, LatestOf, TailEnterable;
    if !under || n == 0 || n >= NEVER {
      forall b: Board, id: string, lo: seq<int>, hi: seq<int>, latest: nat, own: seq<int>, m: Metrics
        | Measured(b, id, lo, hi, latest, own, m) && Segments(b, id, n, under)
        ensures b.width > 0 && b.height > 0 && FlagRight(b, id, lo, hi, m)
      {
        FlagHolds(b, id, lo, hi, latest, own, m, n, under);
      }
    } else {
      var b, lo, hi, own, m := StackedTailMisleads(n, 1);
    }
  }

  /** The same for the death flag, given the length on record: a length the other cells cover needs no tail. */
  lemma DeathRightExactly(n: nat, length: int, under: bool)
    ensures !under || n == 0 || n >= NEVER || length < 2 || (length == 2 && n > 2) <==>
      forall b: Board, id: string, lo: seq<int>, hi: seq<int>, latest: nat, own: seq<int>, m: Metrics ::
        Measured(b, id, lo, hi, latest, own, m) && Segments(b, id, n, under)
        && Lookup(b, id).value.EffectiveLength() == length
        ==> DeathRight(b, id, lo, hi, m)
  {
    hide Exact, FreeFrom, RivalsFrom, LatestOf, TailEnterable;
    if !under || n == 0 || n >= NEVER || length < 2 || (length == 2 && n > 2) {
      forall b: Board, id: string, lo: seq<int>, hi: seq<int>, latest: nat, own: seq<int>, m: Metrics
        | Measured(b, id, lo, hi, latest, own, m) && Segments(b, id, n, under) && Lookup(b, id).value.EffectiveLength() == length
        ensures b.width > 0 && b.height > 0 && DeathRight(b, id, lo, hi, m)
      {
        DeathHolds(b, id, lo, hi, latest, own, m, n, length, under);
      }
    } else {
      var b, lo, hi, own, m := StackedTailMisleads(n, length);
    }
  }
}

/**
 The perimeter certificate: a snake that lies along the border of its bounding box with
 room for the food there can circulate for ever.
 */
module PerimeterCycles {
  import opened Grid
  import opened Boards
  import opened Optional
  import opened Limits
  import opened SoloRuns
  import opened Perimeter
  import opened Remainders

  function Extended(r: Rect, c: Coord): Rect {
    Rect(if c.x < r.minX then c.x else r.minX, if c.y < r.minY then c.y else r.minY,
         if c.x > r.maxX then c.x else r.maxX, if c.y > r.maxY then c.y else r.maxY)
  }

  /** The bounding box of the first n segments. */
  ghost function Box(body: seq<Coord>, n: nat): Rect
    requires 0 < n <= |body|
  {
    if n == 1 then Rect(body[0].x, body[0].y, body[0].x, body[0].y) else Extended(Box(body, n - 1), body[n - 1])
  }

  method BoundingBox(body: seq<Coord>) returns (r: Rect)
    requires body != []
    ensures r == Box(body, |body|)
  {
    var minX, maxX, minY, maxY := body[0].x, body[0].x, body[0].y, body[0].y;
    for i := 1 to |body|
      invariant Rect(minX, minY, maxX, maxY) == Box(body, i)
    {
      var c := body[i];
      if c.x < minX { minX := c.x; }
      if c.x > maxX { maxX := c.x; }
      if c.y < minY { minY := c.y; }
      if c.y > maxY { maxY := c.y; }
    }
    r := Rect(minX, minY, maxX, maxY);
  }

  /** The place i segments behind the head, the body lying ahead of it in the numbering or behind it. */
  function Slot(head: int, ahead: bool, i: int): int {
    if ahead then head + i else head - i
  }

  /** The body follows the border without a gap. */
  ghost predicate Follows(body: seq<Coord>, r: Rect, ahead: bool)
    requires body != [] && r.Proper()
  {
    && PerimeterIndex(body[0], r) >= 0
    && forall i :: 0 <= i < |body| ==>
      PerimeterIndex(body[i], r) == Slot(PerimeterIndex(body[0], r), ahead, i) % r.Capacity()
  }

  predicate Counted(food: seq<Coord>, consumed: Coord, c: Coord) {
    c != consumed && c in food
  }

  /** Border cells below n with food that counts. */
  ghost function GrowthCells(r: Rect, food: seq<Coord>, consumed: Coord, n: nat): nat {
    if n == 0 then 0
    else GrowthCells(r, food, consumed, n - 1) + if Counted(food, consumed, PerimeterCoord(n - 1, r)) then 1 else 0
  }

  /** The turn on which the head first comes to the place with the given index. */
  function OwnArrival(head: int, ahead: bool, index: int, capacity: int): int
    requires capacity > 0
  {
    1 + if ahead then (head - index + capacity) % capacity else (index - head + capacity) % capacity
  }

  /** No rival can close a border cell before the snake comes to it. */
  ghost predicate Uncontested(r: Rect, head: int, ahead: bool, closes: (Coord, int, int) -> bool, n: nat)
    requires r.Proper()
  {
    forall i :: 0 <= i < n ==> !closes(PerimeterCoord(i, r), OwnArrival(head, ahead, i, r.Capacity()), r.Capacity())
  }

  ghost predicate FitsBorder(b: Board, body: seq<Coord>) {
    |body| >= 2 &&
    var r := Box(body, |body|);
    r.Proper() && b.InBounds(Coord(r.minX, r.minY)) && b.InBounds(Coord(r.maxX, r.maxY)) && |body| < r.Capacity() <= INT_MAX
  }

  ghost predicate Certified(b: Board, body: seq<Coord>, closes: (Coord, int, int) -> bool, food: seq<Coord>,
                            consumed: Coord, ahead: bool) {
    FitsBorder(b, body) &&
    var r := Box(body, |body|);
    && Follows(body, r, ahead)
    && Uncontested(r, PerimeterIndex(body[0], r), ahead, closes, r.Capacity())
    && GrowthCells(r, food, consumed, r.Capacity()) <= r.Capacity() - |body| - 1
  }

  /** The direction in which the body follows the border, if it does. */
  method BodyDirection(body: seq<Coord>, r: Rect) returns (ahead: Option<bool>)
    requires |body| >= 2 && r.Proper() && |body| < r.Capacity()
    ensures ahead.Some? ==> Follows(body, r, ahead.value) && !Follows(body, r, !ahead.value)
    ensures ahead.None? ==> !Follows(body, r, true) && !Follows(body, r, false)
  {
    var capacity := r.Capacity();
    var head, neck := PerimeterIndex(body[0], r), PerimeterIndex(body[1], r);
    if head < 0 || neck < 0 {
      NotFollowing(body, r, true, if head < 0 then 0 else 1);
      NotFollowing(body, r, false, if head < 0 then 0 else 1);
      return None;
    }
    var step := (neck - head + capacity) % capacity;
    StepOfNeck(body, r, head, neck, step);
    if step != 1 && step != capacity - 1 {
      return None;
    }
    var forward := step == 1;
    var expected := head;
    SlotStarts(body, r, forward);
    for i := 1 to |body|
      invariant expected == Slot(head, forward, i - 1) % capacity
      invariant forall k :: 0 <= k < i ==> PerimeterIndex(body[k], r) == Slot(head, forward, k) % capacity
    {
      var index := PerimeterIndex(body[i], r);
      NextSlot(head, forward, i, capacity, step);
      expected := (expected + step) % capacity;
      if index != expected {
        return None;
      }
    }
    ahead := Some(forward);
  }

  lemma NotFollowing(body: seq<Coord>, r: Rect, ahead: bool, i: nat)
    requires body != [] && r.Proper() && i < |body| && PerimeterIndex(body[i], r) < 0
    ensures !Follows(body, r, ahead)
  {}

  lemma SlotStarts(body: seq<Coord>, r: Rect, ahead: bool)
    requires body != [] && r.Proper() && PerimeterIndex(body[0], r) >= 0
    ensures PerimeterIndex(body[0], r) == Slot(PerimeterIndex(body[0], r), ahead, 0) % r.Capacity()
  {
    CoordOfIndex(body[0], r);
    RemainderUnique(PerimeterIndex(body[0], r), r.Capacity(), 0, PerimeterIndex(body[0], r));
  }

  /** The step from head to neck decides the only direction the body may have. */
  lemma StepOfNeck(body: seq<Coord>, r: Rect, head: int, neck: int, step: int)
    requires |body| >= 2 && r.Proper() && head == PerimeterIndex(body[0], r) >= 0 && neck == PerimeterIndex(body[1], r) >= 0
    requires step == (neck - head + r.Capacity()) % r.Capacity()
    ensures step != 1 ==> !Follows(body, r, true)
    ensures step != r.Capacity() - 1 ==> !Follows(body, r, false)
  {
    var n := r.Capacity();
    CoordOfIndex(body[0], r);
    CoordOfIndex(body[1], r);
    if Follows(body, r, true) {
      assert neck == Slot(head, true, 1) % n;
      RemainderUnique(head, n, 0, head);
      RemainderNext(head, n);
      RemainderUnique(neck - head + n, n, if neck == head + 1 then 1 else 0, 1);
    }
    if Follows(body, r, false) {
      assert neck == Slot(head, false, 1) % n;
      RemainderUnique(head, n, 0, head);
      RemainderBefore(head, n);
      RemainderUnique(head + n - 1, n, if head == 0 then 0 else 1, if head == 0 then n - 1 else head - 1);
      RemainderUnique(neck - head + n, n, if head == 0 then 1 else 0, n - 1);
    }
  }

  lemma NextSlot(head: int, ahead: bool, i: int, n: int, step: int)
    requires n > 1 && step == if ahead then 1 else n - 1
    ensures (Slot(head, ahead, i - 1) % n + step) % n == Slot(head, ahead, i) % n
  {
    var a := Slot(head, ahead, i - 1);
    if ahead {
      RemainderNext(a, n);
      RemainderNext(a % n, n);
      RemainderUnique(a % n, n, 0, a % n);
    } else {
      RemainderBefore(a, n);
    }
  }

  /** The capacity of the border when the snake is certified to circulate there, and zero otherwise. */
  method BoundedCycleCapacity(b: Board, s: Snake, closes: (Coord, int, int) -> bool, food: seq<Coord>, consumed: Coord)
    returns (capacity: nat)
    ensures capacity > 0 ==> s.body != [] && capacity == Box(s.body, |s.body|).Capacity()
    ensures capacity > 0 <==>
      Certified(b, s.body, closes, food, consumed, true) || Certified(b, s.body, closes, food, consumed, false)
  {
    hide Follows, GrowthCells;
    if |s.body| < 2 {
      return 0;
    }
    var r := BoundingBox(s.body);
    if r.Width() < 2 || r.Height() < 2 || !b.InBounds(Coord(r.minX, r.minY)) || !b.InBounds(Coord(r.maxX, r.maxY)) {
      return 0;
    }
    if r.Capacity() > INT_MAX || r.Capacity() <= |s.body| {
      return 0;
    }
    var ahead := BodyDirection(s.body, r);
    if ahead.None? {
      return 0;
    }
    var head, growth := PerimeterIndex(s.body[0], r), 0;
    NoGrowthYet(r, food, consumed);
    for index := 0 to r.Capacity()
      invariant growth == GrowthCells(r, food, consumed, index)
      invariant Uncontested(r, head, ahead.value, closes, index)
    {
      var c := PerimeterCoord(index, r);
      MoreGrowth(r, food, consumed, index);
      if c != consumed && c in food {
        growth := growth + 1;
      }
      if closes(c, OwnArrival(head, ahead.value, index, r.Capacity()), r.Capacity()) {
        return 0;
      }
    }
    if growth > r.Capacity() - |s.body| - 1 {
      return 0;
    }
    capacity := r.Capacity();
  }

  lemma NoGrowthYet(r: Rect, food: seq<Coord>, consumed: Coord)
    ensures GrowthCells(r, food, consumed, 0) == 0
  {}

  lemma MoreGrowth(r: Rect, food: seq<Coord>, consumed: Coord, n: nat)
    ensures GrowthCells(r, food, consumed, n + 1)
         == GrowthCells(r, food, consumed, n) + if Counted(food, consumed, PerimeterCoord(n, r)) then 1 else 0
  {}
}

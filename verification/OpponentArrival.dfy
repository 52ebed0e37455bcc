/**
 The earliest times at which rival heads can arrive at each cell.
 */
module OpponentArrival {
  import opened Graphs
  import opened Grid
  import opened Boards
  import opened Optional
  import opened Counting
  import opened TimeWindows
  import opened TimeSearch

  /** Adds a state to the queue and marks it as seen. */
  method Enqueue(n: nat, max: nat, queue: array<nat>, seen: array<bool>, count: nat, s: State, ghost q: seq<State>)
    requires queue.Length == seen.Length == (max + 1) * n && count <= queue.Length
    requires Holds(n, max, q, queue[..count], seen[..]) && Distinct(q) && Encodable(n, max, s) && s !in q
    modifies queue, seen
    ensures count < queue.Length && Holds(n, max, q + [s], queue[..count + 1], seen[..])
  {
    hide Holds, Code;
    QueueHasRoom(n, max, q, queue[..count], seen[..], s);
    HoldsPush(n, max, q, queue[..count], seen[..], s);
    ghost var listed := queue[..count];
    seen[Code(n, s)] := true;
    queue[count] := Code(n, s);
    assert queue[..count + 1] == listed + [Code(n, s)];
  }

  /** Which opponents are considered: another snake, possibly one in particular, of a length in range. */
  predicate Rival(b: Board, id: string, selected: Option<string>, minimum: int, maximum: int, s: Snake) {
    && s.body != [] && s.id != id && (selected.Some? ==> s.id == selected.value)
    && minimum <= s.EffectiveLength() < maximum && b.InBounds(s.body[0])
  }

  ghost predicate RivalAt(b: Board, id: string, selected: Option<string>, minimum: int, maximum: int, i: nat, c: nat) {
    i < |b.snakes| && Rival(b, id, selected, minimum, maximum, b.snakes[i]) && CellIndex(b.width, b.snakes[i].body[0]) == c
  }

  ghost predicate RivalHead(b: Board, id: string, selected: Option<string>, minimum: int, maximum: int, n: nat, c: nat) {
    exists i: nat :: i < n && RivalAt(b, id, selected, minimum, maximum, i, c)
  }

  /** The cells of the rivals' heads. */
  ghost function RivalHeads(b: Board, id: string, selected: Option<string>, minimum: int, maximum: int): (r: set<nat>)
    requires b.width > 0 && b.height > 0
  {
    set c | c in Below(b.width * b.height) && RivalHead(b, id, selected, minimum, maximum, |b.snakes|, c)
  }

  /** The queue holds exactly the first n rivals' heads, at time zero. */
  ghost predicate Placed(b: Board, id: string, selected: Option<string>, minimum: int, maximum: int, n: nat, q: seq<State>) {
    && (forall i :: 0 <= i < |q| ==> q[i].time == 0)
    && (forall c: nat :: State(0, c) in q <==> RivalHead(b, id, selected, minimum, maximum, n, c))
  }

  method PlaceRivals(b: Board, id: string, selected: Option<string>, minimum: int, maximum: int, max: nat,
                     opponent: array<int>, seen: array<bool>, queue: array<nat>)
    returns (count: nat, ghost q: seq<State>)
    requires b.width > 0 && b.height > 0 && opponent.Length == b.width * b.height
    requires queue.Length == seen.Length == (max + 1) * opponent.Length
    requires forall c :: 0 <= c < opponent.Length ==> opponent[c] == NEVER
    requires forall c :: 0 <= c < seen.Length ==> !seen[c]
    modifies opponent, seen, queue
    ensures count <= queue.Length && Distinct(q) && Holds(opponent.Length, max, q, queue[..count], seen[..])
    ensures Recorded(opponent.Length, q, opponent[..])
    ensures Placed(b, id, selected, minimum, maximum, |b.snakes|, q)
  {
    var n := opponent.Length;
    count, q := 0, [];
    HoldsEmpty(n, max);
    assert seen[..] == seq((max + 1) * n, _ => false);
    assert queue[..0] == [];
    hide Holds;
    for i := 0 to |b.snakes|
      invariant count <= queue.Length && Distinct(q) && Holds(n, max, q, queue[..count], seen[..])
      invariant Recorded(n, q, opponent[..])
      invariant Placed(b, id, selected, minimum, maximum, i, q)
    {
      var snake := b.snakes[i];
      RivalNext(b, id, selected, minimum, maximum, i);
      if Rival(b, id, selected, minimum, maximum, snake) {
        IndexInRange(b.width, b.height, snake.body[0]);
        var index := CellIndex(b.width, snake.body[0]);
        if opponent[index] > 0 {
          ghost var recorded := Lowered(opponent[..], 0, index);
          Record(n, q, opponent[..], 0, index);
          opponent[index] := 0;
          assert opponent[..] == recorded;
          Enqueue(n, max, queue, seen, count, State(0, index), q);
          count := count + 1;
          q := q + [State(0, index)];
        }
      }
    }
  }

  lemma RivalNext(b: Board, id: string, selected: Option<string>, minimum: int, maximum: int, i: nat)
    ensures forall c: nat :: RivalHead(b, id, selected, minimum, maximum, i + 1, c) <==>
      RivalHead(b, id, selected, minimum, maximum, i, c) || RivalAt(b, id, selected, minimum, maximum, i, c)
  {}

  /** Looks at the neighbours of one state. */
  method SpreadOpponent(f: Field, ghost src: set<nat>, max: nat, h: nat, current: nat, time: nat, vacate: array<int>,
                        opponent: array<int>, seen: array<bool>, queue: array<nat>, count0: nat, ghost q0: seq<State>)
    returns (count: nat, ghost q: seq<State>)
    requires Shaped(f) && vacate[..] == f.lo && opponent.Length == |f.g| && vacate != opponent
    requires forall c :: 0 <= c < |f.hi| ==> f.hi[c] == max + 1
    requires queue.Length == seen.Length == (max + 1) * |f.g| && h < count0 <= queue.Length && |q0| == count0
    requires Holds(|f.g|, max, q0, queue[..count0], seen[..]) && Searching(f, src, max, q0, h)
    requires Recorded(|f.g|, q0, opponent[..]) && q0[h] == State(time, current) && time < max && current < |f.g|
    modifies opponent, seen, queue
    ensures count0 <= count <= queue.Length && |q| == count
    ensures Holds(|f.g|, max, q, queue[..count], seen[..]) && Recorded(|f.g|, q, opponent[..])
    ensures Searching(f, src, max, q, h + 1)
  {
    hide Holds, Searching, Recorded, Shaped, Code, HasSuccessor, Visited, Distinct;
    count, q := count0, q0;
    var n, next := |f.g|, time + 1;
    NothingVisited(f, max, q, h);
    for k := 0 to |f.g[current]|
      invariant count0 <= count <= queue.Length && |q| == count && q[h] == q0[h]
      invariant Holds(n, max, q, queue[..count], seen[..]) && Searching(f, src, max, q, h)
      invariant Recorded(n, q, opponent[..]) && Visited(f, max, q, h, k)
    {
      var neighbor := f.g[current][k];
      NeighborInGraph(f, current, k);
      RecordedShape(n, q, opponent[..]);
      var s := State(next, neighbor);
      SeenMeansQueued(n, max, q, queue[..count], seen[..], s);
      if next < vacate[neighbor] || seen[Code(n, s)] {
        PassOver(f, max, q, h, k);
      } else {
        Discover(f, src, max, q, h, k);
        SearchingDistinct(f, src, max, q, h);
        Enqueue(n, max, queue, seen, count, s, q);
        count := count + 1;
        Record(n, q, opponent[..], next, neighbor);
        q := q + [s];
        ghost var recorded := Lowered(opponent[..], next, neighbor);
        if opponent[neighbor] > next {
          opponent[neighbor] := next;
        }
        assert opponent[..] == recorded;
      }
    }
    NextEntry(f, src, max, q, h);
  }

  /** Rivals move freely, but not into cells that are not vacated yet. */
  ghost function VacantField(g: Graph, vacate: seq<int>, end: int): Field {
    Field(g, vacate, seq(|g|, _ => end))
  }

  /** The horizon leaves the windows up to it unchanged. */
  lemma {:induction false} HorizonAgrees(g: Graph, vacate: seq<int>, src: set<nat>, max: nat, t: nat)
    requires |vacate| == |g| && t <= max && t < NEVER
    ensures At(VacantField(g, vacate, max + 1), src, t) == At(VacantField(g, vacate, NEVER), src, t)
  {
    if t > 0 {
      HorizonAgrees(g, vacate, src, max, t - 1);
      var f, w := VacantField(g, vacate, max + 1), VacantField(g, vacate, NEVER);
      var before := At(f, src, t - 1);
      assert forall c: nat :: EnteredFrom(f, before, t, c) <==> EnteredFrom(w, before, t, c);
    }
  }

  /** Runs the search until the queue is exhausted or the clock stops it. */
  method SpreadRivals(f: Field, ghost src: set<nat>, max: nat, vacate: array<int>, opponent: array<int>, seen: array<bool>,
                      queue: array<nat>, count: nat, timedOut: nat -> bool, ghost q0: seq<State>)
    returns (done: bool, tail: nat, ghost q: seq<State>)
    requires Shaped(f) && vacate[..] == f.lo && opponent.Length == |f.g| && vacate != opponent
    requires forall c :: 0 <= c < |f.hi| ==> f.hi[c] == max + 1
    requires queue.Length == seen.Length == (max + 1) * |f.g| && count <= queue.Length
    requires Holds(|f.g|, max, q0, queue[..count], seen[..]) && Searching(f, src, max, q0, 0)
    requires Recorded(|f.g|, q0, opponent[..])
    modifies opponent, seen, queue
    ensures (forall k :: !timedOut(k)) ==> done
    ensures done ==> tail <= queue.Length && Holds(|f.g|, max, q, queue[..tail], seen[..])
    ensures done ==> Searching(f, src, max, q, |q|) && Recorded(|f.g|, q, opponent[..])
  {
    hide Holds, Searching, Recorded, Shaped, Code, Distinct;
    var n, head := |f.g|, 0;
    tail, q := count, q0;
    HoldsLength(n, max, q, queue[..tail], seen[..]);
    while head < tail
      invariant 0 <= head <= tail <= queue.Length && |q| == tail
      invariant Holds(n, max, q, queue[..tail], seen[..]) && Searching(f, src, max, q, head)
      invariant Recorded(n, q, opponent[..])
      decreases queue.Length - head
    {
      if head % 64 == 0 && timedOut(head) {
        return false, tail, q;
      }
      var state := queue[head];
      Decode(n, max, q, queue[..tail], seen[..], head);
      EntryInRange(f, src, max, q, head);
      var current, time := state % n, state / n;
      if time < max {
        tail, q := SpreadOpponent(f, src, max, head, current, time, vacate, opponent, seen, queue, tail, q);
      } else {
        NextEntry(f, src, max, q, head);
      }
      head := head + 1;
    }
    done := true;
  }

  /**
   Fills the rivals' arrival times. The marks tell for every time up to the horizon where
   rivals can be; the times are the earliest possible when the horizon covers the settling
   time and one step for every cell. Only a clock makes it give up.
   */
  method FillOpponentArrival(b: Board, id: string, selected: Option<string>, minimum: int, maximum: int,
                             vacate: array<int>, max: nat, timedOut: nat -> bool, ghost settled: nat)
    returns (done: bool, opponent: array<int>, seen: array<bool>)
    requires b.width > 0 && b.height > 0 && vacate.Length == b.width * b.height
    ensures fresh(opponent) && fresh(seen) && opponent.Length == vacate.Length && seen.Length == (max + 1) * vacate.Length
    ensures (forall k :: !timedOut(k)) ==> done
    ensures done ==> forall t: nat, c: nat :: t <= max && c < vacate.Length ==>
      var f := VacantField(GridGraph(b.width, b.height), vacate[..], max + 1);
      && Code(vacate.Length, State(t, c)) < seen.Length
      && (seen[Code(vacate.Length, State(t, c))] <==> c in At(f, RivalHeads(b, id, selected, minimum, maximum), t))
    ensures var w := VacantField(GridGraph(b.width, b.height), vacate[..], NEVER);
            done && Settled(w, settled) && settled + vacate.Length <= max ==>
              forall c :: 0 <= c < opponent.Length ==>
                LeastArrival(w, RivalHeads(b, id, selected, minimum, maximum), c, opponent[c])
  {
    var g := GridGraph(b.width, b.height);
    GridGraphWellFormed(b.width, b.height);
    var n := vacate.Length;
    ghost var src := RivalHeads(b, id, selected, minimum, maximum);
    var f := Field(g, vacate[..], seq(n, _ => max + 1));
    assert Shaped(f) && f == VacantField(g, vacate[..], max + 1);
    opponent := new int[n](_ => NEVER);
    seen := new bool[(max + 1) * n](_ => false);
    var queue := new nat[(max + 1) * n](_ => 0);
    hide Holds, Searching, Recorded, Shaped, Code, Distinct, VacantField, RivalHeads, Neighbors, WellFormed, Symmetric;
    ghost var q;
    var count;
    count, q := PlaceRivals(b, id, selected, minimum, maximum, max, opponent, seen, queue);
    PlacedSearching(b, id, selected, minimum, maximum, f, max, q);
    done, count, q := SpreadRivals(f, src, max, vacate, opponent, seen, queue, count, timedOut, q);
    if done {
      FoundExactly(f, src, max, q, queue[..count], seen[..]);
      forall c | 0 <= c < n && Settled(VacantField(g, vacate[..], NEVER), settled) && settled + n <= max
        ensures LeastArrival(VacantField(g, vacate[..], NEVER), src, c, opponent[c])
      {
        ExactForRivals(g, vacate[..], src, max, q, opponent[..], settled, c);
      }
    }
  }

  lemma FoundExactly(f: Field, src: set<nat>, max: nat, q: seq<State>, queue: seq<nat>, seen: seq<bool>)
    requires Searching(f, src, max, q, |q|) && Holds(|f.g|, max, q, queue, seen)
    ensures forall t: nat, c: nat :: t <= max && c < |f.g| ==>
      Code(|f.g|, State(t, c)) < |seen| && (seen[Code(|f.g|, State(t, c))] <==> c in At(f, src, t))
  {
    hide Holds, Searching, Code, At;
    forall t: nat, c: nat | t <= max && c < |f.g|
      ensures Code(|f.g|, State(t, c)) < |seen| && (seen[Code(|f.g|, State(t, c))] <==> c in At(f, src, t))
    {
      SeenMeansQueued(|f.g|, max, q, queue, seen, State(t, c));
      FoundMeansReached(f, src, max, q, t, c);
    }
  }

  lemma PlacedSearching(b: Board, id: string, selected: Option<string>, minimum: int, maximum: int, f: Field, max: nat,
                        q: seq<State>)
    requires b.width > 0 && b.height > 0 && f.g == GridGraph(b.width, b.height)
    requires Placed(b, id, selected, minimum, maximum, |b.snakes|, q) && Distinct(q)
    ensures Searching(f, RivalHeads(b, id, selected, minimum, maximum), max, q, 0)
  {
    forall i | 0 <= i < |q| ensures q[i].cell in RivalHeads(b, id, selected, minimum, maximum) {
      assert q[i] == State(0, q[i].cell);
      var k: nat :| k < |b.snakes| && RivalAt(b, id, selected, minimum, maximum, k, q[i].cell);
      IndexInRange(b.width, b.height, b.snakes[k].body[0]);
    }
  }

  lemma ExactForRivals(g: Graph, vacate: seq<int>, src: set<nat>, max: nat, q: seq<State>, arrival: seq<int>, settled: nat,
                       c: nat)
    requires WellFormed(g) && |vacate| == |g| && c < |g|
    requires Searching(VacantField(g, vacate, max + 1), src, max, q, |q|) && Recorded(|g|, q, arrival)
    requires Settled(VacantField(g, vacate, NEVER), settled) && settled + |g| <= max
    ensures LeastArrival(VacantField(g, vacate, NEVER), src, c, arrival[c])
  {
    var f, w := VacantField(g, vacate, max + 1), VacantField(g, vacate, NEVER);
    assert Shaped(f) && Shaped(w);
    forall t: nat | t <= max && t < NEVER ensures At(f, src, t) == At(w, src, t) {
      HorizonAgrees(g, vacate, src, max, t);
    }
    RecordedIsExact(f, w, src, max, q, arrival, settled, c);
  }
}

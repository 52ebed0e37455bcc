/**
 Space-time reachability: the cells a snake can still enter, each no earlier than it
 is vacated and strictly before a rival of at least its length can arrive.
 */
module SpaceTime {
  import opened Graphs
  import opened Grid
  import opened Boards
  import opened Optional
  import opened Limits
  import opened Counting
  import opened TimeWindows
  import opened TimeSearch
  import opened SearchOrder
  import opened VacateTimes
  import opened OpponentArrival

  datatype Metrics = Metrics(reachableCells: int, maxArrival: int, tailReachable: bool, dead: bool)

  ghost function ReachedCells(start: nat, arrival: seq<int>): set<nat> {
    set c | c in Below(|arrival|) && c != start && arrival[c] < NEVER
  }

  /** The counters are the number of cells reached, the start excepted, and the latest arrival among them. */
  ghost predicate Tally(start: nat, arrival: seq<int>, reachable: int, latest: int) {
    var reached := ReachedCells(start, arrival);
    && reachable == |reached|
    && (forall c :: c in reached ==> arrival[c] <= latest)
    && (if reached == {} then latest == 0 else exists c :: c in reached && arrival[c] == latest)
  }

  lemma TallyStep(n: nat, start: nat, q: seq<State>, h: nat, arrival: seq<int>, v: nat, reachable: int, latest: int)
    requires Recorded(n, q, arrival) && h < |q| && Ordered(q, h) && v < n
    requires State(q[h].time + 1, v) !in q && q[h].time + 1 < NEVER && Tally(start, arrival, reachable, latest)
    ensures var t := q[h].time + 1;
            var lowered := Lowered(arrival, t, v);
            if v != start && lowered[v] == t then Tally(start, lowered, reachable + 1, if t > latest then t else latest)
            else Tally(start, lowered, reachable, latest)
  {
    var t := q[h].time + 1;
    var lowered := Lowered(arrival, t, v);
    FirstTime(n, q, h, arrival, v);
    if lowered[v] == t && v != start {
      assert ReachedCells(start, lowered) == ReachedCells(start, arrival) + {v};
      assert v in ReachedCells(start, lowered);
      forall c | c in ReachedCells(start, arrival) ensures lowered[c] == arrival[c] <= t {
        assert State(arrival[c], c) in q;
      }
    } else {
      assert ReachedCells(start, lowered) == ReachedCells(start, arrival);
      assert forall c :: c in ReachedCells(start, arrival) ==> lowered[c] == arrival[c];
    }
  }

  /** Once every other cell is counted, all of them have an arrival time. */
  lemma AllReached(start: nat, arrival: seq<int>, reachable: int, latest: int)
    requires Tally(start, arrival, reachable, latest) && start < |arrival| <= reachable + 1
    ensures forall c :: 0 <= c < |arrival| && c != start ==> arrival[c] < NEVER
  {
    var others := Below(|arrival|) - {start};
    var reached := ReachedCells(start, arrival);
    assert |others| == |arrival| - 1;
    forall c: nat | c < |arrival| && c != start ensures c in reached {
      if c !in reached {
        SubsetCount(reached + {c}, others);
      }
    }
  }

  ghost predicate EntersTail(s: State, tail: int) {
    s.time > 0 && s.cell == tail
  }

  ghost predicate TailSeen(q: seq<State>, tail: int) {
    exists i :: 0 <= i < |q| && EntersTail(q[i], tail)
  }

  lemma TailSeenStep(q: seq<State>, s: State, tail: int)
    ensures TailSeen(q + [s], tail) <==> TailSeen(q, tail) || EntersTail(s, tail)
  {
    var q' := q + [s];
    if TailSeen(q, tail) {
      var i :| 0 <= i < |q| && EntersTail(q[i], tail);
      assert EntersTail(q'[i], tail);
    }
    if EntersTail(s, tail) {
      assert EntersTail(q'[|q|], tail);
    }
  }

  /** The bookkeeping of the search: arrival times, counters and the tail flag. */
  ghost predicate Booked(n: nat, start: nat, tail: int, q: seq<State>, arrival: seq<int>, m: Metrics) {
    && Recorded(n, q, arrival) && Tally(start, arrival, m.reachableCells, m.maxArrival)
    && (m.tailReachable <==> TailSeen(q, tail))
  }

  function BookedState(m: Metrics, start: nat, tail: int, arrival: seq<int>, t: nat, v: nat): Metrics
    requires v < |arrival|
  {
    var counted := if v != start && arrival[v] == t then
                     m.(reachableCells := m.reachableCells + 1, maxArrival := if t > m.maxArrival then t else m.maxArrival)
                   else m;
    if v == tail then counted.(tailReachable := true) else counted
  }

  lemma Book(n: nat, start: nat, tail: int, q: seq<State>, h: nat, arrival: seq<int>, v: nat, m: Metrics)
    requires Booked(n, start, tail, q, arrival, m) && h < |q| && Ordered(q, h) && v < n
    requires State(q[h].time + 1, v) !in q && q[h].time + 1 < NEVER
    ensures var t := q[h].time + 1;
            |arrival| == n &&
            Booked(n, start, tail, q + [State(t, v)], Lowered(arrival, t, v),
                   BookedState(m, start, tail, Lowered(arrival, t, v), t, v))
  {
    hide Tally, Ordered, TailSeen, Lowered;
    RecordedShape(n, q, arrival);
    hide Recorded;
    TallyStep(n, start, q, h, arrival, v, m.reachableCells, m.maxArrival);
    Record(n, q, arrival, q[h].time + 1, v);
    TailSeenStep(q, State(q[h].time + 1, v), tail);
  }

  lemma SearchingOrdered(f: Field, src: set<nat>, max: nat, q: seq<State>, h: nat)
    requires Searching(f, src, max, q, h)
    ensures Ordered(q, h)
  {}

  lemma BookedShape(n: nat, start: nat, tail: int, q: seq<State>, arrival: seq<int>, m: Metrics)
    requires Booked(n, start, tail, q, arrival, m)
    ensures |arrival| == n
  {}

  /** Entry h is next, and the queue lists the states found in the order of discovery; without meaning at the horizon. */
  ghost predicate InOrder(f: Field, start: nat, max: nat, q: seq<State>, h: nat) {
    h < |q| && q[h].time < max ==> Laid(f, start, q, h, 0)
  }

  /** The search stops with the k-th neighbour of entry h, the last cell to be reached. */
  ghost predicate StoppedAt(f: Field, start: nat, own: seq<int>, q: seq<State>, h: nat, k: nat, m: Metrics) {
    h < |q| && Laid(f, start, q, h, k) && m.reachableCells + 1 >= |f.g| &&
    var last := q[|q| - 1];
    && last.time == q[h].time + 1
    && (|f.g| > 1 ==> last.cell != start && last.cell < |own| && own[last.cell] == last.time == m.maxArrival)
  }

  ghost predicate Stopped(f: Field, start: nat, own: seq<int>, q: seq<State>, h: nat, m: Metrics) {
    exists k: nat :: StoppedAt(f, start, own, q, h, k, m)
  }

  /** The queue is exhausted before every cell is reached, or the search stops with the last one. */
  ghost predicate Over(f: Field, start: nat, own: seq<int>, q: seq<State>, h: nat, m: Metrics) {
    if h < |q| then Stopped(f, start, own, q, h, m) else h == |q| && (m.reachableCells + 1 < |f.g| || |f.g| == 1)
  }

  lemma StopsHere(f: Field, start: nat, max: nat, tail: int, own: seq<int>, q: seq<State>, h: nat, k: nat, m: Metrics, v: nat)
    requires Searching(f, {start}, max, q, h) && Booked(|f.g|, start, tail, q, own, m) && start < |f.g|
    requires h < |q| && Laid(f, start, q, h, k) && q[|q| - 1] == State(q[h].time + 1, v)
    requires m.reachableCells + 1 >= |f.g|
    requires |f.g| > 1 ==> v != start && v < |own| && own[v] == q[h].time + 1 <= m.maxArrival
    ensures Stopped(f, start, own, q, h, m)
  {
    hide Laid;
    if |f.g| > 1 {
      LatestIsQueued(f, start, max, tail, own, m, h, q);
    }
    assert StoppedAt(f, start, own, q, h, k, m);
  }

  lemma OrderAtHorizon(f: Field, start: nat, max: nat, q: seq<State>, h: nat)
    requires Searching(f, {start}, max, q, h) && h < |q| && q[h].time >= max
    ensures InOrder(f, start, max, q, h + 1)
  {
    hide Laid;
  }

  lemma OrderAdvances(f: Field, start: nat, max: nat, q: seq<State>, h: nat)
    requires h < |q| && q[h].cell < |f.g| && Laid(f, start, q, h, |f.g[q[h].cell]|)
    ensures InOrder(f, start, max, q, h + 1)
  {
    hide Laid;
    if h + 1 < |q| {
      LaidAdvances(f, start, q, h, |f.g[q[h].cell]|);
    }
  }

  /** Looks at the neighbours of one state; stops as soon as every cell is reached. */
  method SpreadOwn(f: Field, start: nat, max: nat, ghost h: nat, current: nat, time: nat, tail: int, vacate: array<int>,
                   opponent: array<int>, own: array<int>, seen: array<bool>, queue: array<nat>, count0: nat, m0: Metrics,
                   ghost q0: seq<State>)
    returns (count: nat, m: Metrics, stopped: bool, ghost q: seq<State>)
    requires Shaped(f) && vacate[..] == f.lo && opponent[..] == f.hi && own.Length == |f.g| && start < |f.g|
    requires vacate != own && opponent != own && forall c :: 0 <= c < |f.hi| ==> f.hi[c] <= NEVER
    requires queue.Length == seen.Length == (max + 1) * |f.g| && h < count0 <= queue.Length && |q0| == count0
    requires Holds(|f.g|, max, q0, queue[..count0], seen[..]) && Searching(f, {start}, max, q0, h)
    requires Booked(|f.g|, start, tail, q0, own[..], m0)
    requires q0[h] == State(time, current) && time < max && current < |f.g|
    requires InOrder(f, start, max, q0, h)
    requires m0.reachableCells + 1 < |f.g| || |f.g| == 1
    modifies own, seen, queue
    ensures count0 <= count <= queue.Length && |q| == count
    ensures Holds(|f.g|, max, q, queue[..count], seen[..]) && Booked(|f.g|, start, tail, q, own[..], m)
    ensures Searching(f, {start}, max, q, if stopped then h else h + 1)
    ensures if stopped then h < |q| && Stopped(f, start, own[..], q, h, m)
            else InOrder(f, start, max, q, h + 1) && (m.reachableCells + 1 < |f.g| || |f.g| == 1)
    ensures m.dead == m0.dead
  {
    hide Holds, Searching, Booked, Shaped, Code, HasSuccessor, Visited, Distinct, Laid, Stopped;
    count, q, m, stopped := count0, q0, m0, false;
    var n, next := |f.g|, time + 1;
    NothingVisited(f, max, q, h);
    for k := 0 to |f.g[current]|
      invariant count0 <= count <= queue.Length && |q| == count && q[h] == q0[h] && m.dead == m0.dead
      invariant Holds(n, max, q, queue[..count], seen[..]) && Searching(f, {start}, max, q, h)
      invariant Booked(n, start, tail, q, own[..], m) && Visited(f, max, q, h, k) && Laid(f, start, q, h, k)
      invariant m.reachableCells + 1 < n || n == 1
    {
      var neighbor := f.g[current][k];
      NeighborInGraph(f, current, k);
      BookedShape(n, start, tail, q, own[..], m);
      var s := State(next, neighbor);
      SeenMeansQueued(n, max, q, queue[..count], seen[..], s);
      if next < vacate[neighbor] || opponent[neighbor] <= next || seen[Code(n, s)] {
        PassOver(f, max, q, h, k);
        LaidSkips(f, start, q, h, k);
      } else {
        Discover(f, {start}, max, q, h, k);
        LaidPushes(f, start, q, h, k);
        SearchingDistinct(f, {start}, max, q, h);
        SearchingOrdered(f, {start}, max, q, h);
        Book(n, start, tail, q, h, own[..], neighbor, m);
        Enqueue(n, max, queue, seen, count, s, q);
        count := count + 1;
        q := q + [s];
        ghost var recorded, booked := Lowered(own[..], next, neighbor), m;
        if own[neighbor] > next {
          own[neighbor] := next;
        }
        assert own[..] == recorded;
        if neighbor != start && own[neighbor] == next {
          m := m.(reachableCells := m.reachableCells + 1);
          if next > m.maxArrival {
            m := m.(maxArrival := next);
          }
        }
        if neighbor == tail && next >= vacate[neighbor] {
          m := m.(tailReachable := true);
        }
        assert m == BookedState(booked, start, tail, recorded, next, neighbor);
        if m.reachableCells + 1 >= n {
          StopsHere(f, start, max, tail, own[..], q, h, k + 1, m, neighbor);
          return count, m, true, q;
        }
      }
    }
    NextEntry(f, {start}, max, q, h);
    OrderAdvances(f, start, max, q, h);
  }

  /** Runs the search until the queue is exhausted or every cell is reached. */
  method ExploreOwn(f: Field, start: nat, max: nat, tail: int, vacate: array<int>, opponent: array<int>, own: array<int>,
                    seen: array<bool>, queue: array<nat>, ghost q0: seq<State>)
    returns (m: Metrics, ghost h: nat, ghost q: seq<State>)
    requires Shaped(f) && vacate[..] == f.lo && opponent[..] == f.hi && own.Length == |f.g| && start < |f.g|
    requires vacate != own && opponent != own && forall c :: 0 <= c < |f.hi| ==> f.hi[c] <= NEVER
    requires queue.Length == seen.Length == (max + 1) * |f.g| && 0 < queue.Length && |q0| == 1
    requires Holds(|f.g|, max, q0, queue[..1], seen[..]) && Searching(f, {start}, max, q0, 0)
    requires Booked(|f.g|, start, tail, q0, own[..], Metrics(0, 0, false, false)) && InOrder(f, start, max, q0, 0)
    modifies own, seen, queue
    ensures Searching(f, {start}, max, q, h) && Booked(|f.g|, start, tail, q, own[..], m)
    ensures Over(f, start, own[..], q, h, m)
    ensures !m.dead
  {
    hide Holds, Searching, Booked, Shaped, Code, Distinct, InOrder, Stopped;
    var n := |f.g|;
    q, h, m := q0, 0, Metrics(0, 0, false, false);
    var head, count, stopped := 0, 1, false;
    while head < count
      invariant 0 <= head <= count <= queue.Length && |q| == count && !m.dead
      invariant Holds(n, max, q, queue[..count], seen[..]) && Searching(f, {start}, max, q, h)
      invariant Booked(n, start, tail, q, own[..], m)
      invariant if stopped then head == count && h < |q| && Stopped(f, start, own[..], q, h, m)
                else head == h && InOrder(f, start, max, q, h) && (m.reachableCells + 1 < n || n == 1)
      decreases queue.Length - head
    {
      var state := queue[head];
      Decode(n, max, q, queue[..count], seen[..], head);
      EntryInRange(f, {start}, max, q, head);
      var current, time := state % n, state / n;
      head := head + 1;
      if time < max {
        count, m, stopped, q := SpreadOwn(f, start, max, h, current, time, tail, vacate, opponent, own, seen, queue, count, m, q);
        if stopped {
          head := count;
        }
      } else {
        NextEntry(f, {start}, max, q, h);
        OrderAtHorizon(f, start, max, q, h);
      }
      h := if stopped then h else head;
    }
  }

  /** A queue that holds the start at time zero. */
  method StartQueue(n: nat, start: nat, max: nat) returns (seen: array<bool>, queue: array<nat>)
    requires start < n
    ensures fresh(seen) && fresh(queue) && queue.Length == seen.Length == (max + 1) * n && queue.Length > 0
    ensures Holds(n, max, [State(0, start)], queue[..1], seen[..])
  {
    hide Holds, Code;
    MulMonotone(1, max + 1, n);
    seen := new bool[(max + 1) * n](_ => false);
    queue := new nat[(max + 1) * n](_ => 0);
    HoldsEmpty(n, max);
    assert queue[..0] == [];
    assert seen[..] == seq((max + 1) * n, _ => false);
    Enqueue(n, max, queue, seen, 0, State(0, start), []);
    assert [] + [State(0, start)] == [State(0, start)];
  }

  /** Fills the own arrival times and counts them. */
  method SearchOwn(f: Field, start: nat, max: nat, tail: int, vacate: array<int>, opponent: array<int>)
    returns (own: array<int>, m: Metrics, ghost h: nat, ghost q: seq<State>)
    requires Shaped(f) && vacate[..] == f.lo && opponent[..] == f.hi && start < |f.g|
    requires forall c :: 0 <= c < |f.hi| ==> f.hi[c] <= NEVER
    ensures fresh(own) && own.Length == |f.g|
    ensures Searching(f, {start}, max, q, h) && Booked(|f.g|, start, tail, q, own[..], m)
    ensures Over(f, start, own[..], q, h, m)
    ensures !m.dead
  {
    hide Holds, Searching, Booked, Shaped, Code, Distinct, InOrder;
    var n := |f.g|;
    own := new int[n](_ => NEVER);
    SearchStarts(f, start, max, tail);
    own[start] := 0;
    assert own[..] == seq(n, c => if c == start then 0 else NEVER);
    var seen, queue := StartQueue(n, start, max);
    m, h, q := ExploreOwn(f, start, max, tail, vacate, opponent, own, seen, queue, [State(0, start)]);
  }

  lemma SearchStarts(f: Field, start: nat, max: nat, tail: int)
    requires Shaped(f) && start < |f.g|
    ensures Searching(f, {start}, max, [State(0, start)], 0)
    ensures Booked(|f.g|, start, tail, [State(0, start)], seq(|f.g|, c => if c == start then 0 else NEVER),
                   Metrics(0, 0, false, false))
    ensures InOrder(f, start, max, [State(0, start)], 0)
  {
    LaidStarts(f, start);
    var arrival := seq(|f.g|, c => if c == start then 0 else NEVER);
    assert ReachedCells(start, arrival) == {};
  }

  /** Whether the tail cell can be entered, the start not counting as entered. */
  ghost predicate TailEnterable(f: Field, start: nat, tail: int) {
    exists t: nat :: t > 0 && tail >= 0 && tail in At(f, {start}, t)
  }

  /** The tail cell can be entered up to time t. */
  ghost predicate TailEnterableBy(f: Field, start: nat, tail: int, t: int) {
    exists u: nat :: 0 < u <= t && tail >= 0 && tail in At(f, {start}, u)
  }

  /** At time t the start is discovered again before some vertex that is first reached at that time. */
  ghost predicate Noticed(f: Field, start: nat, own: seq<int>, t: int) {
    t >= 0 && exists i, j :: DiscoveredBefore(f, start, own, t, i, j)
  }

  ghost predicate DiscoveredBefore(f: Field, start: nat, own: seq<int>, t: nat, i: int, j: int) {
    var layer := Layer(f, start, t);
    0 <= i < j < |layer| && layer[i] == start && layer[j] != start && layer[j] < |own| && own[layer[j]] == t
  }

  /**
   What the search tells of the tail. When the tail lies under the head and every cell is reached,
   the search stops at the last arrival: it tells of earlier returns, of those at that very time
   that are discovered before the last cell, and of none later.
   */
  ghost predicate TailTold(f: Field, start: nat, tail: int, own: seq<int>, m: Metrics) {
    if tail == start && m.reachableCells + 1 >= |f.g| > 1 then
      TailEnterableBy(f, start, tail, m.maxArrival - 1) || Noticed(f, start, own, m.maxArrival)
    else TailEnterable(f, start, tail)
  }

  /** The metrics describe walks of every length, but for what is not told of the tail. */
  ghost predicate Exact(f: Field, start: nat, tail: int, length: int, own: seq<int>, m: Metrics) {
    && |own| == |f.g|
    && (forall c :: 0 <= c < |own| ==> LeastArrival(f, {start}, c, own[c]))
    && Tally(start, own, m.reachableCells, m.maxArrival)
    && (m.tailReachable <==> TailTold(f, start, tail, own, m))
    && (m.dead <==> !m.tailReachable && m.reachableCells < length)
  }

  /** Whatever is told is true. */
  lemma ToldIsTrue(f: Field, start: nat, tail: int, own: seq<int>, m: Metrics)
    requires Shaped(f) && TailTold(f, start, tail, own, m)
    ensures TailEnterable(f, start, tail)
  {
    if tail == start && m.reachableCells + 1 >= |f.g| > 1 && !TailEnterableBy(f, start, tail, m.maxArrival - 1) {
      var i, j :| DiscoveredBefore(f, start, own, m.maxArrival, i, j);
      LayerIsAt(f, start, m.maxArrival, start);
    }
  }

  /** Where the search stopped, everything it recorded is exact. */
  lemma SearchIsExact(f: Field, start: nat, max: nat, tail: int, length: int, own: seq<int>, m: Metrics, h: nat,
                      q: seq<State>, settled: nat)
    requires Searching(f, {start}, max, q, h) && Booked(|f.g|, start, tail, q, own, m) && start < |f.g|
    requires Over(f, start, own, q, h, m)
    requires Shaped(f) && Settled(f, settled) && settled + |f.g| <= max && tail < |f.g|
    requires m.dead <==> !m.tailReachable && m.reachableCells < length
    ensures Exact(f, start, tail, length, own, m)
  {
    BookedShape(|f.g|, start, tail, q, own, m);
    if h < |q| {
      AllReached(start, own, m.reachableCells, m.maxArrival);
    }
    StartIsRecorded(f, start, max, q, h, own);
    forall c | 0 <= c < |own| ensures LeastArrival(f, {start}, c, own[c]) {
      if own[c] < NEVER {
        RecordedIsLeast(f, {start}, max, q, h, own, c);
      } else {
        RecordedIsExact(f, f, {start}, max, q, own, settled, c);
      }
    }
    if tail == start && m.reachableCells + 1 >= |f.g| > 1 {
      EarlyReturns(f, start, max, tail, own, m, h, q);
    } else {
      TailFlagIsExact(f, start, max, tail, own, m, h, q, settled);
    }
  }

  /** What the flag says about returns to the head's cell when the search stops early. */
  lemma EarlyReturns(f: Field, start: nat, max: nat, tail: int, own: seq<int>, m: Metrics, h: nat, q: seq<State>)
    requires Searching(f, {start}, max, q, h) && Booked(|f.g|, start, tail, q, own, m) && start < |f.g|
    requires Stopped(f, start, own, q, h, m) && tail == start && m.reachableCells + 1 >= |f.g| > 1
    ensures m.tailReachable <==> TailTold(f, start, tail, own, m)
  {
    hide Laid, Noticed, HasSuccessor, Distinct, Recorded, Tally, Layer, Entered;
    var k: nat :| StoppedAt(f, start, own, q, h, k, m);
    var t := q[h].time;
    if TailEnterableBy(f, start, tail, t) {
      var u: nat :| 0 < u <= t && tail in At(f, {start}, u);
      Complete(f, {start}, max, q, h, u, tail);
      var i :| 0 <= i < |q| && q[i] == State(u, tail);
      assert EntersTail(q[i], tail);
    }
    if State(t + 1, start) in q {
      var i :| 0 <= i < |q| && q[i] == State(t + 1, start);
      assert EntersTail(q[i], tail);
    }
    if m.tailReachable && State(t + 1, start) !in q {
      var i :| 0 <= i < |q| && EntersTail(q[i], tail);
      assert q[i] == State(q[i].time, start) && tail in At(f, {start}, q[i].time) && q[i].time <= t;
    }
    LastDiscovery(f, start, own, m, h, q, k);
  }

  /** The cells entered so far at the time of the last arrival come first among all entered then, and end with the last cell. */
  lemma FoundLast(f: Field, start: nat, own: seq<int>, q: seq<State>, h: nat, k: nat, m: Metrics) returns (found: seq<nat>)
    requires StoppedAt(f, start, own, q, h, k, m) && |f.g| > 1
    ensures found != [] && found[|found| - 1] == q[|q| - 1].cell && q[|q| - 1].time > 0
    ensures found <= Layer(f, start, q[|q| - 1].time)
    ensures forall v: nat :: State(q[|q| - 1].time, v) in q <==> v in found
  {
    hide Entered;
    var t, j := q[h].time, h - |Earlier(f, start, q[h].time)|;
    var before := Layer(f, start, t);
    found := Entered(f, before, t + 1, j, k);
    EnteredComesFirst(f, before, t + 1, j, k);
    forall v: nat ensures State(t + 1, v) in q <==> v in found {
      LaidMeaning(f, start, q, h, k, v);
    }
  }

  /** Of the cells entered at the last arrival, exactly those discovered before the last cell have been found. */
  lemma LastDiscovery(f: Field, start: nat, own: seq<int>, m: Metrics, h: nat, q: seq<State>, k: nat)
    requires StoppedAt(f, start, own, q, h, k, m) && Recorded(|f.g|, q, own) && |f.g| > 1 && start < |f.g|
    requires Tally(start, own, m.reachableCells, m.maxArrival)
    ensures State(m.maxArrival, start) in q <==> Noticed(f, start, own, m.maxArrival)
  {
    hide Laid, Layer, Tally;
    var found := FoundLast(f, start, own, q, h, k, m);
    var t, layer := m.maxArrival, Layer(f, start, m.maxArrival);
    if start in found {
      var i :| 0 <= i < |found| && found[i] == start;
      assert DiscoveredBefore(f, start, own, t, i, |found| - 1);
    }
    if Noticed(f, start, own, t) {
      var i, l :| DiscoveredBefore(f, start, own, t, i, l);
      AllReached(start, own, m.reachableCells, t);
      var v := layer[l];
      assert State(own[v], v) in q;
      assert v in found;
      var l' :| 0 <= l' < |found| && found[l'] == v;
      assert layer[l'] == v;
      assert found[i] == start;
    }
  }

  /** The latest arrival is at most one step after the entry at which the search stands. */
  lemma LatestIsQueued(f: Field, start: nat, max: nat, tail: int, own: seq<int>, m: Metrics, h: nat, q: seq<State>)
    requires Searching(f, {start}, max, q, h) && Booked(|f.g|, start, tail, q, own, m) && start < |f.g| && m.maxArrival > 0
    ensures m.maxArrival <= max && (h < |q| ==> m.maxArrival <= q[h].time + 1)
  {
    var c :| 0 <= c < |own| && own[c] == m.maxArrival < NEVER;
    var i :| 0 <= i < |q| && q[i] == State(own[c], c);
  }

  lemma StartIsRecorded(f: Field, start: nat, max: nat, q: seq<State>, h: nat, own: seq<int>)
    requires Searching(f, {start}, max, q, h) && Recorded(|f.g|, q, own) && start < |f.g|
    ensures own[start] < NEVER
  {
    assert State(0, start) in q;
  }

  lemma TailFlagIsExact(f: Field, start: nat, max: nat, tail: int, own: seq<int>, m: Metrics, h: nat, q: seq<State>,
                        settled: nat)
    requires Searching(f, {start}, max, q, h) && Booked(|f.g|, start, tail, q, own, m) && start < |f.g|
    requires Over(f, start, own, q, h, m)
    requires Shaped(f) && Settled(f, settled) && settled + |f.g| <= max && tail < |f.g|
    requires tail != start || m.reachableCells + 1 < |f.g| || |f.g| == 1
    ensures m.tailReachable <==> TailEnterable(f, start, tail)
  {
    hide Laid, Noticed, Ordered, Expanded, Distinct;
    if m.tailReachable {
      var i :| 0 <= i < |q| && EntersTail(q[i], tail);
      assert tail in At(f, {start}, q[i].time);
    }
    if TailEnterable(f, start, tail) {
      var s: State;
      if h == |q| {
        var t: nat :| t > 0 && tail in At(f, {start}, t);
        LoopErasure(f, {start}, settled, t, tail);
        var t': nat :| 0 < t' <= settled + |f.g| && tail in At(f, {start}, t');
        Complete(f, {start}, max, q, h, t', tail);
        s := State(t', tail);
      } else if tail == start {
        s := q[|q| - 1];
      } else {
        AllReached(start, own, m.reachableCells, m.maxArrival);
        s := State(own[tail], tail);
      }
      var i :| 0 <= i < |q| && q[i] == s;
      assert EntersTail(q[i], tail);
    }
  }

  /** The largest finite entry. */
  method LatestVacate(vacate: array<int>) returns (latest: nat)
    ensures forall c :: 0 <= c < vacate.Length && vacate[c] < NEVER ==> vacate[c] <= latest
    ensures latest == 0 || exists c :: 0 <= c < vacate.Length && vacate[c] == latest < NEVER
  {
    latest := 0;
    for i := 0 to vacate.Length
      invariant forall c :: 0 <= c < i && vacate[c] < NEVER ==> vacate[c] <= latest
      invariant latest == 0 || exists c :: 0 <= c < i && vacate[c] == latest < NEVER
    {
      if vacate[i] < NEVER && vacate[i] > latest {
        latest := vacate[i];
      }
    }
  }

  /** When each cell is expected to be free; hazards a weak snake cannot afford never are. */
  ghost predicate FreeFrom(b: Board, s: Snake, lo: seq<int>) {
    && b.width > 0 && b.height > 0 && |lo| == b.width * b.height
    && forall c :: 0 <= c < |lo| ==>
      if HazardKills(b, s) && CellCoord(b.width, c) in b.hazards then lo[c] == NEVER
      else 0 <= lo[c] <= NEVER && VacatesAt(b, s.id, |b.snakes|, 0, CellCoord(b.width, c), lo[c])
  }

  /** When rivals of at least the snake's length can first arrive at each cell. */
  ghost predicate RivalsFrom(b: Board, s: Snake, lo: seq<int>, hi: seq<int>) {
    && b.width > 0 && b.height > 0 && |hi| == |lo| == b.width * b.height
    && forall c :: 0 <= c < |hi| ==>
      LeastArrival(VacantField(GridGraph(b.width, b.height), lo, NEVER),
                   RivalHeads(b, s.id, None, s.EffectiveLength(), INT_MAX), c, hi[c])
  }

  ghost predicate LatestOf(lo: seq<int>, latest: nat) {
    && (forall c :: 0 <= c < |lo| && lo[c] < NEVER ==> lo[c] <= latest)
    && (latest == 0 || exists c :: 0 <= c < |lo| && lo[c] == latest < NEVER)
  }

  ghost function CellOf(b: Board, c: Coord): int {
    if b.InBounds(c) then CellIndex(b.width, c) else -1
  }

  predicate EqualOrLonger(b: Board, id: string, length: int) {
    exists i :: 0 <= i < |b.snakes| && b.snakes[i].body != [] && b.snakes[i].id != id
             && b.snakes[i].EffectiveLength() >= length
  }

  method FillWindows(b: Board, id: string) returns (vacate: array<int>, latest: nat)
    requires b.width > 0 && b.height > 0 && Alive(b, id)
    ensures fresh(vacate) && FreeFrom(b, Lookup(b, id).value, vacate[..]) && LatestOf(vacate[..], latest)
  {
    var s := Lookup(b, id).value;
    vacate := new int[b.width * b.height](_ => 0);
    FillVacateTimes(b, id, vacate);
    if HazardKills(b, s) {
      MarkHazards(b, vacate);
    }
    latest := LatestVacate(vacate);
  }

  /** Without a rival of sufficient length the search for rivals is skipped. */
  method FillRivals(b: Board, id: string, vacate: array<int>, max: nat, ghost settled: nat) returns (opponent: array<int>)
    requires b.width > 0 && b.height > 0 && Alive(b, id) && FreeFrom(b, Lookup(b, id).value, vacate[..])
    requires LatestOf(vacate[..], settled) && settled + vacate.Length <= max
    ensures fresh(opponent) && RivalsFrom(b, Lookup(b, id).value, vacate[..], opponent[..])
  {
    var length := Lookup(b, id).value.EffectiveLength();
    ghost var w := VacantField(GridGraph(b.width, b.height), vacate[..], NEVER);
    assert Settled(w, settled);
    if EqualOrLonger(b, id, length) {
      var done, seen;
      done, opponent, seen := FillOpponentArrival(b, id, None, length, INT_MAX, vacate, max, _ => false, settled);
    } else {
      opponent := new int[vacate.Length](_ => NEVER);
      ghost var heads := RivalHeads(b, id, None, length, INT_MAX);
      assert heads == {};
      forall t: nat ensures At(w, heads, t) == {} {
        NowhereAtAll(w, t);
      }
    }
  }

  lemma {:induction false} NowhereAtAll(f: Field, t: nat)
    ensures At(f, {}, t) == {}
  {
    if t > 0 {
      NowhereAtAll(f, t - 1);
    }
  }

  /** The metrics of a living snake with its head on the board, given the cells' windows. */
  ghost predicate Measured(b: Board, id: string, lo: seq<int>, hi: seq<int>, latest: nat, own: seq<int>, m: Metrics) {
    && b.width > 0 && b.height > 0 && Alive(b, id) && b.InBounds(Lookup(b, id).value.body[0]) &&
    var s, cells := Lookup(b, id).value, b.width * b.height;
    && cells <= INT_MAX - latest - 2 && FreeFrom(b, s, lo) && LatestOf(lo, latest) && RivalsFrom(b, s, lo, hi)
    && CellIndex(b.width, s.body[0]) >= 0
    && Exact(Field(GridGraph(b.width, b.height), lo, hi), CellIndex(b.width, s.body[0]),
             CellOf(b, s.body[|s.body| - 1]), s.EffectiveLength(), own, m)
  }

  /**
   The metrics of the named snake, and its arrival times. None is an error: a board without
   cells, or one too large for the horizon.
   */
  method CoreSpaceTimeCompute(b: Board, id: string)
    returns (result: Option<Metrics>, own: array<int>, ghost lo: seq<int>, ghost hi: seq<int>, ghost latest: nat)
    ensures b.width <= 0 || b.height <= 0 ==> result.None?
    ensures b.width > 0 && b.height > 0 && !(Alive(b, id) && b.InBounds(Lookup(b, id).value.body[0])) ==>
      result == Some(Metrics(0, 0, false, false))
    ensures b.width > 0 && b.height > 0 && Alive(b, id) && b.InBounds(Lookup(b, id).value.body[0]) ==>
      var s, cells := Lookup(b, id).value, b.width * b.height;
      if cells > INT_MAX then result.None?
      else
        && FreeFrom(b, s, lo) && LatestOf(lo, latest)
        && (result.None? <==> cells > INT_MAX - latest - 2)
        && (result.Some? ==> Measured(b, id, lo, hi, latest, own[..], result.value))
  {
    own := new int[0];
    lo, hi, latest := [], [], 0;
    if b.width <= 0 || b.height <= 0 {
      return None, own, lo, hi, latest;
    }
    var found := Lookup(b, id);
    if found.None? || found.value.body == [] || !b.InBounds(found.value.body[0]) {
      return Some(Metrics(0, 0, false, false)), own, lo, hi, latest;
    }
    if b.width * b.height > INT_MAX {
      return None, own, lo, hi, latest;
    }
    var s := found.value;
    var vacate, last := FillWindows(b, id);
    lo, latest := vacate[..], last;
    if b.width * b.height > INT_MAX - last - 2 {
      return None, own, lo, hi, latest;
    }
    var metrics;
    metrics, own, hi := ComputeMetrics(b, id, s, vacate, last);
    return Some(metrics), own, lo, hi, latest;
  }

  method ComputeMetrics(b: Board, id: string, s: Snake, vacate: array<int>, latest: nat)
    returns (m: Metrics, own: array<int>, ghost hi: seq<int>)
    requires b.width > 0 && b.height > 0 && Lookup(b, id) == Some(s) && s.body != [] && b.InBounds(s.body[0])
    requires FreeFrom(b, s, vacate[..]) && LatestOf(vacate[..], latest)
    ensures RivalsFrom(b, s, vacate[..], hi) && CellIndex(b.width, s.body[0]) >= 0
    ensures Exact(Field(GridGraph(b.width, b.height), vacate[..], hi), CellIndex(b.width, s.body[0]),
                  CellOf(b, s.body[|s.body| - 1]), s.EffectiveLength(), own[..], m)
  {
    var g := GridGraph(b.width, b.height);
    GridGraphWellFormed(b.width, b.height);
    IndexInRange(b.width, b.height, s.body[0]);
    var start: nat := CellIndex(b.width, s.body[0]);
    var max := latest + b.width * b.height + 2;
    var opponent := FillRivals(b, id, vacate, max, latest);
    hi := opponent[..];
    var last := s.body[|s.body| - 1];
    var tail := -1;
    if b.InBounds(last) {
      IndexInRange(b.width, b.height, last);
      tail := CellIndex(b.width, last);
    }
    var f := Field(g, vacate[..], opponent[..]);
    WindowsSettle(b, s, f, latest);
    hide Searching, Booked, Exact, Over, Shaped, Settled, Neighbors, WellFormed, Symmetric, FreeFrom, RivalsFrom;
    ghost var h, q;
    own, m, h, q := SearchOwn(f, start, max, tail, vacate, opponent);
    m := m.(dead := !m.tailReachable && m.reachableCells < s.EffectiveLength());
    DeadIsApart(f, start, tail, own[..], q, h, m.(dead := false), m);
    SearchIsExact(f, start, max, tail, s.EffectiveLength(), own[..], m, h, q, latest);
  }

  lemma WindowsSettle(b: Board, s: Snake, f: Field, latest: nat)
    requires FreeFrom(b, s, f.lo) && RivalsFrom(b, s, f.lo, f.hi) && LatestOf(f.lo, latest)
    requires f.g == GridGraph(b.width, b.height)
    ensures Shaped(f) && Settled(f, latest) && forall c :: 0 <= c < |f.hi| ==> f.hi[c] <= NEVER
  {
    GridGraphWellFormed(b.width, b.height);
  }

  lemma DeadIsApart(f: Field, start: nat, tail: int, own: seq<int>, q: seq<State>, h: nat, m: Metrics, m': Metrics)
    requires Booked(|f.g|, start, tail, q, own, m) && Over(f, start, own, q, h, m) && m'.(dead := m.dead) == m
    ensures Booked(|f.g|, start, tail, q, own, m') && Over(f, start, own, q, h, m')
  {
    hide Laid;
    if h < |q| {
      var k: nat :| StoppedAt(f, start, own, q, h, k, m);
      assert StoppedAt(f, start, own, q, h, k, m');
    }
  }
}

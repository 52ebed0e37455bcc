/**
 Breadth-first search over (time, cell) states as a state machine on values: the
 queue of states found, what its order implies, and what the arrival table holds.
 */
module TimeSearch {
  import opened Graphs
  import opened Grid
  import opened Counting
  import opened TimeWindows

  datatype State = State(time: nat, cell: nat)

  /** Every state found is within the horizon and can be reached. */
  ghost predicate Sound(f: Field, src: set<nat>, max: nat, q: seq<State>) {
    forall i :: 0 <= i < |q| ==> q[i].time <= max && q[i].cell < |f.g| && q[i].cell in At(f, src, q[i].time)
  }

  ghost predicate Seeded(src: set<nat>, q: seq<State>) {
    forall c :: c in src ==> State(0, c) in q
  }

  /** Times do not decrease along the queue, and span at most one step beyond entry h. */
  ghost predicate Ordered(q: seq<State>, h: nat) {
    && (forall i, j :: 0 <= i < j < |q| ==> q[i].time <= q[j].time)
    && (h < |q| ==> forall i :: 0 <= i < |q| ==> q[i].time <= q[h].time + 1)
  }

  ghost predicate HasSuccessor(f: Field, max: nat, q: seq<State>, s: State, v: nat) {
    s.time < max && Steps(f, s.cell, s.time + 1, v) ==> State(s.time + 1, v) in q
  }

  /** The successors of the first n entries have been found. */
  ghost predicate Expanded(f: Field, max: nat, q: seq<State>, n: nat) {
    forall i, v: nat :: 0 <= i < n && i < |q| ==> HasSuccessor(f, max, q, q[i], v)
  }

  /** The queue when entry h is next. */
  ghost predicate Searching(f: Field, src: set<nat>, max: nat, q: seq<State>, h: nat) {
    && h <= |q| && Sound(f, src, max, q) && Seeded(src, q) && Distinct(q) && Ordered(q, h) && Expanded(f, max, q, h)
  }

  /** Everything reached before the time of the next entry, and at that time, has been found. */
  lemma {:induction false} Complete(f: Field, src: set<nat>, max: nat, q: seq<State>, h: nat, t: nat, c: nat)
    requires Searching(f, src, max, q, h) && t <= max && (h < |q| ==> t <= q[h].time)
    requires c in At(f, src, t)
    ensures State(t, c) in q
  {
    hide Sound, Distinct;
    if t > 0 {
      var u :| u in At(f, src, t - 1) && Steps(f, u, t, c);
      Complete(f, src, max, q, h, t - 1, u);
      var i :| 0 <= i < |q| && q[i] == State(t - 1, u);
      assert i < h;
      assert HasSuccessor(f, max, q, q[i], c);
    }
  }

  /** A newly entered state joins the queue. */
  lemma Push(f: Field, src: set<nat>, max: nat, q: seq<State>, h: nat, v: nat)
    requires Searching(f, src, max, q, h) && h < |q| && q[h].time < max && v < |f.g|
    requires Steps(f, q[h].cell, q[h].time + 1, v) && State(q[h].time + 1, v) !in q
    ensures Searching(f, src, max, q + [State(q[h].time + 1, v)], h)
  {
    var t := q[h].time + 1;
    assert v in At(f, src, t);
    var q' := q + [State(t, v)];
    forall i, x: nat | 0 <= i < h ensures HasSuccessor(f, max, q', q'[i], x) {
      assert HasSuccessor(f, max, q, q[i], x);
    }
  }

  /** The neighbours of entry h listed below k have been looked at. */
  ghost predicate Visited(f: Field, max: nat, q: seq<State>, h: nat, k: nat)
    requires h < |q| && q[h].cell < |f.g| && k <= |f.g[q[h].cell]|
  {
    forall l :: 0 <= l < k ==> HasSuccessor(f, max, q, q[h], f.g[q[h].cell][l])
  }

  lemma EntryInRange(f: Field, src: set<nat>, max: nat, q: seq<State>, h: nat)
    requires Searching(f, src, max, q, h) && h < |q|
    ensures q[h].time <= max && q[h].cell < |f.g|
  {}

  /** A neighbour that is closed or was found before is passed over. */
  lemma PassOver(f: Field, max: nat, q: seq<State>, h: nat, k: nat)
    requires h < |q| && q[h].cell < |f.g| && k < |f.g[q[h].cell]| && Visited(f, max, q, h, k)
    requires Enters(f, q[h].time + 1, f.g[q[h].cell][k]) ==> State(q[h].time + 1, f.g[q[h].cell][k]) in q
    ensures Visited(f, max, q, h, k + 1)
  {}

  /** A neighbour entered at a time not seen before joins the queue. */
  lemma Discover(f: Field, src: set<nat>, max: nat, q: seq<State>, h: nat, k: nat)
    requires Searching(f, src, max, q, h) && h < |q| && q[h].time < max && WellFormed(f.g)
    requires q[h].cell < |f.g| && k < |f.g[q[h].cell]| && Visited(f, max, q, h, k)
    requires Enters(f, q[h].time + 1, f.g[q[h].cell][k]) && State(q[h].time + 1, f.g[q[h].cell][k]) !in q
    ensures var q' := q + [State(q[h].time + 1, f.g[q[h].cell][k])];
            Searching(f, src, max, q', h) && q'[h] == q[h] && Visited(f, max, q', h, k + 1)
  {
    var v := f.g[q[h].cell][k];
    Push(f, src, max, q, h, v);
    var q' := q + [State(q[h].time + 1, v)];
    forall l | 0 <= l < k ensures HasSuccessor(f, max, q', q[h], f.g[q[h].cell][l]) {
      assert HasSuccessor(f, max, q, q[h], f.g[q[h].cell][l]);
    }
  }

  lemma NextEntry(f: Field, src: set<nat>, max: nat, q: seq<State>, h: nat)
    requires Searching(f, src, max, q, h) && h < |q| && q[h].cell < |f.g|
    requires q[h].time < max ==> Visited(f, max, q, h, |f.g[q[h].cell]|)
    ensures Searching(f, src, max, q, h + 1)
  {}

  /** The table holds the least time found for each vertex. */
  ghost predicate Recorded(n: nat, q: seq<State>, arrival: seq<int>) {
    && |arrival| == n
    && (forall c :: 0 <= c < n ==> 0 <= arrival[c] <= NEVER && (arrival[c] < NEVER ==> State(arrival[c], c) in q))
    && (forall i :: 0 <= i < |q| && q[i].cell < n && q[i].time < NEVER ==> arrival[q[i].cell] <= q[i].time)
  }

  function Lowered(arrival: seq<int>, t: nat, v: nat): seq<int>
    requires v < |arrival|
  {
    if arrival[v] > t then arrival[v := t] else arrival
  }

  lemma Record(n: nat, q: seq<State>, arrival: seq<int>, t: nat, v: nat)
    requires Recorded(n, q, arrival) && v < n
    ensures Recorded(n, q + [State(t, v)], Lowered(arrival, t, v))
  {}

  /** In queue order a vertex is either entered for the first time or keeps its earlier time. */
  lemma FirstTime(n: nat, q: seq<State>, h: nat, arrival: seq<int>, v: nat)
    requires Recorded(n, q, arrival) && h < |q| && Ordered(q, h) && v < n
    requires State(q[h].time + 1, v) !in q && q[h].time + 1 < NEVER
    ensures arrival[v] == NEVER || arrival[v] < q[h].time + 1
  {}

  /** What has been recorded up to the time of the next entry is final. */
  lemma RecordedIsLeast(f: Field, src: set<nat>, max: nat, q: seq<State>, h: nat, arrival: seq<int>, c: nat)
    requires Searching(f, src, max, q, h) && Recorded(|f.g|, q, arrival) && c < |f.g|
    requires arrival[c] < NEVER
    ensures 0 <= arrival[c] && LeastArrival(f, src, c, arrival[c])
  {
    var i :| 0 <= i < |q| && q[i] == State(arrival[c], c);
    assert h < |q| ==> q[i].time <= q[h].time + 1;
    forall t: nat | t < arrival[c] ensures c !in At(f, src, t) {
      if c in At(f, src, t) {
        Complete(f, src, max, q, h, t, c);
      }
    }
  }

  /** Two fields give the same sets up to the horizon. */
  ghost predicate Agree(f: Field, w: Field, src: set<nat>, max: nat) {
    forall t: nat :: t <= max && t < NEVER ==> At(f, src, t) == At(w, src, t)
  }

  /** With the queue exhausted and a sufficient horizon, the table is exact for walks of every length. */
  lemma RecordedIsExact(f: Field, w: Field, src: set<nat>, max: nat, q: seq<State>, arrival: seq<int>, settled: nat, c: nat)
    requires Searching(f, src, max, q, |q|) && Recorded(|f.g|, q, arrival) && c < |f.g| == |w.g|
    requires Agree(f, w, src, max) && Shaped(w) && Settled(w, settled) && settled + |w.g| <= max
    ensures LeastArrival(w, src, c, arrival[c])
  {
    if arrival[c] < NEVER {
      RecordedIsLeast(f, src, max, q, |q|, arrival, c);
    } else {
      forall t: nat | t < NEVER ensures c !in At(w, src, t) {
        if c in At(w, src, t) {
          if t > 0 {
            LoopErasure(w, src, settled, t, c);
          }
          var t' :| 0 <= t' <= t && t' <= max && c in At(w, src, t');
          Complete(f, src, max, q, |q|, t', c);
        }
      }
    }
  }

  /** States are stored as time * n + cell. */
  function Code(n: nat, s: State): nat {
    s.time * n + s.cell
  }

  lemma CodeInRange(n: nat, max: nat, s: State)
    requires s.cell < n && s.time <= max
    ensures Code(n, s) < (max + 1) * n
    ensures Code(n, s) % n == s.cell && Code(n, s) / n == s.time
  {
    MulMonotone(s.time + 1, max + 1, n);
    MulAdd(s.time, 1, n);
    CellUnique(n, Code(n, s), s.cell, s.time);
  }

  lemma CodeDistinct(n: nat, s: State, r: State)
    requires s.cell < n && r.cell < n
    ensures Code(n, s) == Code(n, r) ==> s == r
  {
    if Code(n, s) == Code(n, r) {
      DivisionUnique(n, s.cell, s.time, r.cell, r.time);
    }
  }

  ghost predicate Encodable(n: nat, max: nat, s: State) {
    s.cell < n && s.time <= max
  }

  /** The queue array and the marks of the states seen hold the queue q. */
  ghost predicate Holds(n: nat, max: nat, q: seq<State>, queue: seq<nat>, seen: seq<bool>) {
    && |queue| == |q| && |seen| == (max + 1) * n
    && (forall i :: 0 <= i < |q| ==> Encodable(n, max, q[i]) && queue[i] == Code(n, q[i]))
    && (forall s :: Encodable(n, max, s) ==> Code(n, s) < |seen| && (seen[Code(n, s)] <==> s in q))
  }

  /** A state not seen before fits into a queue with one slot per state. */
  lemma QueueHasRoom(n: nat, max: nat, q: seq<State>, queue: seq<nat>, seen: seq<bool>, s: State)
    requires Holds(n, max, q, queue, seen) && Distinct(q) && Encodable(n, max, s) && s !in q
    ensures |queue| < (max + 1) * n
  {
    CodeInRange(n, max, s);
    forall i | 0 <= i < |queue| ensures queue[i] < (max + 1) * n && queue[i] != Code(n, s) {
      CodeInRange(n, max, q[i]);
      CodeDistinct(n, q[i], s);
    }
    forall i, j | 0 <= i < j < |queue| ensures queue[i] != queue[j] {
      CodeDistinct(n, q[i], q[j]);
    }
    assert Code(n, s) !in queue;
    DistinctBound(queue, (max + 1) * n);
  }

  lemma HoldsPush(n: nat, max: nat, q: seq<State>, queue: seq<nat>, seen: seq<bool>, s: State)
    requires Holds(n, max, q, queue, seen) && Encodable(n, max, s)
    ensures Code(n, s) < |seen| && Holds(n, max, q + [s], queue + [Code(n, s)], seen[Code(n, s) := true])
  {
    hide Code;
    forall r | Encodable(n, max, r)
      ensures seen[Code(n, s) := true][Code(n, r)] <==> r in q + [s]
    {
      CodeDistinct(n, r, s);
    }
  }

  lemma HoldsEmpty(n: nat, max: nat)
    ensures Holds(n, max, [], [], seq((max + 1) * n, _ => false))
  {}

  lemma SeenMeansQueued(n: nat, max: nat, q: seq<State>, queue: seq<nat>, seen: seq<bool>, s: State)
    requires Holds(n, max, q, queue, seen) && Encodable(n, max, s)
    ensures Code(n, s) < |seen| && (seen[Code(n, s)] <==> s in q)
  {}

  lemma Decode(n: nat, max: nat, q: seq<State>, queue: seq<nat>, seen: seq<bool>, h: nat)
    requires Holds(n, max, q, queue, seen) && h < |q|
    ensures n > 0 && h < |queue| && q[h] == State(queue[h] / n, queue[h] % n)
  {
    CodeInRange(n, max, q[h]);
  }

  lemma NeighborInGraph(f: Field, u: nat, k: nat)
    requires Shaped(f) && u < |f.g| && k < |f.g[u]|
    ensures f.g[u][k] < |f.g| == |f.lo| == |f.hi| && WellFormed(f.g)
  {}

  lemma RecordedShape(n: nat, q: seq<State>, arrival: seq<int>)
    requires Recorded(n, q, arrival)
    ensures |arrival| == n
  {}

  lemma NothingVisited(f: Field, max: nat, q: seq<State>, h: nat)
    requires h < |q| && q[h].cell < |f.g|
    ensures Visited(f, max, q, h, 0)
  {}

  lemma SearchingDistinct(f: Field, src: set<nat>, max: nat, q: seq<State>, h: nat)
    requires Searching(f, src, max, q, h)
    ensures Distinct(q) && h <= |q|
  {}

  lemma HoldsLength(n: nat, max: nat, q: seq<State>, queue: seq<nat>, seen: seq<bool>)
    requires Holds(n, max, q, queue, seen)
    ensures |queue| == |q|
  {}

  /** With the queue exhausted, the states found are exactly those that can be reached within the horizon. */
  lemma FoundMeansReached(f: Field, src: set<nat>, max: nat, q: seq<State>, t: nat, c: nat)
    requires Searching(f, src, max, q, |q|) && t <= max
    ensures State(t, c) in q <==> c in At(f, src, t)
  {
    if c in At(f, src, t) {
      Complete(f, src, max, q, |q|, t, c);
    }
  }
}

/**
 The relaxed static capacity of a position: the size of the region a snake's head
 can reach, and whether the head lies in that region's two-core, found by peeling
 cells with fewer than two neighbours.
 */
module FloodFill {
  import opened Graphs
  import opened Counting

  /** A cell is free, covered by the body, or peeled off as fringe. */
  datatype Mark = Free | Body | Fringe

  ghost function AllVertices(g: Graph): set<nat> {
    Below(|g|)
  }

  lemma VerticesBound(g: Graph, s: set<nat>, extra: nat)
    requires s <= AllVertices(g)
    ensures |s| <= |g|
    ensures extra < |g| && extra !in s ==> |s| < |g|
  {
    SubsetCount(s, AllVertices(g));
    if extra < |g| && extra !in s {
      SubsetCount(s + {extra}, AllVertices(g));
    }
  }

  /** The vertices reachable from start through open vertices. */
  ghost function Component(g: Graph, open: set<nat>, start: nat): set<nat> {
    set c: nat | c < |g| && Reaches(g, open, start, c)
  }

  ghost function OpenCells(blocked: seq<Mark>): set<nat> {
    set c: nat | c < |blocked| && blocked[c] == Free
  }

  /** The queue lists the visited cells, each once. */
  ghost predicate Queued(queue: seq<nat>, seen: set<nat>) {
    && |seen| == |queue|
    && (forall k, l :: 0 <= k < l < |queue| ==> queue[k] != queue[l])
    && (forall k :: 0 <= k < |queue| ==> queue[k] in seen)
    && (forall c :: c in seen ==> c in queue)
  }

  lemma Enqueue(queue: seq<nat>, seen: set<nat>, c: nat)
    requires Queued(queue, seen) && c !in seen
    ensures Queued(queue + [c], seen + {c})
  {}

  /** Vertices whose open neighbours have all been seen. */
  ghost predicate Expanded(g: Graph, open: set<nat>, done: seq<nat>, seen: set<nat>) {
    forall i, v :: 0 <= i < |done| && Edge(g, done[i], v) && v in open ==> v in seen
  }

  /** The flood so far: the queue lists the visited cells, all of them reachable. */
  ghost predicate Flooding(g: Graph, open: set<nat>, start: nat, visited: seq<bool>, queue: seq<nat>, seen: set<nat>) {
    && |visited| == |g| && start in seen && Queued(queue, seen)
    && (forall c :: c in seen ==> c < |g| && Reaches(g, open, start, c))
    && (forall c :: 0 <= c < |g| ==> (visited[c] <==> c in seen))
  }

  lemma FloodingSees(g: Graph, open: set<nat>, start: nat, visited: seq<bool>, queue: seq<nat>, seen: set<nat>, c: nat)
    requires Flooding(g, open, start, visited, queue, seen) && c < |g|
    ensures |visited| == |g| && (visited[c] <==> c in seen)
  {}

  lemma FloodingExtends(g: Graph, open: set<nat>, start: nat, visited: seq<bool>, queue: seq<nat>, seen: set<nat>,
                        index: nat, next: nat)
    requires Flooding(g, open, start, visited, queue, seen)
    requires index in seen && Edge(g, index, next) && next < |g| && next in open && !visited[next]
    ensures |queue| < |g| == |visited|
    ensures Flooding(g, open, start, visited[next := true], queue + [next], seen + {next})
  {
    assert seen <= AllVertices(g);
    VerticesBound(g, seen, next);
    ReachesStep(g, open, start, index, next);
    Enqueue(queue, seen, next);
  }

  lemma FloodingEnds(g: Graph, open: set<nat>, start: nat, visited: seq<bool>, queue: seq<nat>, seen: set<nat>)
    requires Flooding(g, open, start, visited, queue, seen) && Expanded(g, open, queue, seen)
    ensures seen == Component(g, open, start)
  {
    forall u, v | u in seen && Edge(g, u, v) && v in open ensures v in seen {
      var i :| 0 <= i < |queue| && queue[i] == u;
    }
    forall c | c in Component(g, open, start) ensures c in seen {
      ReachesStaysInside(g, open, seen, start, c);
    }
  }

  /** Visits the open neighbours of one cell. */
  method VisitNeighbors(g: Graph, start: nat, index: nat, blocked: array<Mark>, visited: array<bool>, queue: array<nat>,
                        count: nat, ghost seen0: set<nat>)
    returns (write: nat, ghost seen: set<nat>)
    requires WellFormed(g) && index < |g| && blocked.Length == queue.Length == visited.Length == |g| && count <= |g|
    requires Flooding(g, OpenCells(blocked[..]), start, visited[..], queue[..count], seen0) && index in seen0
    modifies visited, queue
    ensures count <= write <= |g| && seen0 <= seen
    ensures Flooding(g, OpenCells(blocked[..]), start, visited[..], queue[..write], seen)
    ensures queue[..count] == old(queue[..count])
    ensures forall v :: Edge(g, index, v) && v in OpenCells(blocked[..]) ==> v in seen
  {
    hide Flooding, Queued;
    ghost var open := OpenCells(blocked[..]);
    write, seen := count, seen0;
    for k := 0 to |g[index]|
      invariant count <= write <= |g| && seen0 <= seen
      invariant Flooding(g, open, start, visited[..], queue[..write], seen)
      invariant queue[..count] == old(queue[..count])
      invariant forall l :: 0 <= l < k && g[index][l] in open ==> g[index][l] in seen
    {
      var next := g[index][k];
      FloodingSees(g, open, start, visited[..], queue[..write], seen, next);
      if blocked[next] == Free && !visited[next] {
        FloodingExtends(g, open, start, visited[..], queue[..write], seen, index, next);
        ghost var listed := queue[..write];
        visited[next] := true;
        queue[write] := next;
        assert queue[..write + 1] == listed + [next];
        write := write + 1;
        seen := seen + {next};
      }
    }
  }

  /** Breadth-first flood from start over the cells that are not blocked. */
  method Flood(g: Graph, start: nat, blocked: array<Mark>, visited: array<bool>, queue: array<nat>)
    returns (count: nat)
    requires WellFormed(g) && start < |g|
    requires blocked.Length == visited.Length == queue.Length == |g|
    requires forall c :: 0 <= c < |g| ==> !visited[c]
    modifies visited, queue
    ensures forall c :: 0 <= c < |g| ==> (visited[c] <==> c in Component(g, OpenCells(blocked[..]), start))
    ensures count == |Component(g, OpenCells(blocked[..]), start)|
  {
    ghost var open := OpenCells(blocked[..]);
    ghost var seen: set<nat> := {start};
    visited[start] := true;
    queue[0] := start;
    var read, write := 0, 1;
    ReachesSelf(g, open, start);
    while read < write
      invariant 0 <= read <= write <= |g|
      invariant Flooding(g, open, start, visited[..], queue[..write], seen)
      invariant Expanded(g, open, queue[..read], seen)
      decreases |g| - read
    {
      var index := queue[read];
      ghost var done := queue[..read];
      assert queue[..write][read] in seen;
      assert queue[..read + 1] == queue[..write][..read + 1] == done + [index];
      write, seen := VisitNeighbors(g, start, index, blocked, visited, queue, write, seen);
      read := read + 1;
      assert queue[..read] == done + [index];
    }
    FloodingEnds(g, open, start, visited[..], queue[..write], seen);
    count := write;
  }

  /** How many entries of the list lie in s. */
  ghost function CountIn(list: seq<nat>, s: set<nat>): nat {
    if list == [] then 0
    else CountIn(list[..|list| - 1], s) + (if list[|list| - 1] in s then 1 else 0)
  }

  ghost predicate Simple(g: Graph) {
    forall u :: 0 <= u < |g| ==> Distinct(g[u])
  }

  lemma {:induction false} CountMonotone(list: seq<nat>, s: set<nat>, t: set<nat>)
    requires s <= t
    ensures CountIn(list, s) <= CountIn(list, t)
  {
    if list != [] {
      CountMonotone(list[..|list| - 1], s, t);
    }
  }

  /** Removing a vertex lowers the count of a list without repetition by one exactly when it is listed. */
  lemma {:induction false} CountWithout(list: seq<nat>, s: set<nat>, u: nat)
    requires Distinct(list) && u in s
    ensures CountIn(list, s - {u}) == CountIn(list, s) - (if u in list then 1 else 0)
  {
    if list != [] {
      var front := list[..|list| - 1];
      CountWithout(front, s, u);
      assert list == front + [list[|list| - 1]];
      if list[|list| - 1] == u {
        assert u !in front;
      }
    }
  }

  /** Every member has at least two neighbours in the set. */
  ghost predicate TwoConnected(g: Graph, k: set<nat>) {
    forall c :: c in k ==> c < |g| && CountIn(g[c], k) >= 2
  }

  /** The vertex lies in some set of region vertices with at least two neighbours each inside. */
  ghost predicate InTwoCore(g: Graph, region: set<nat>, c: nat) {
    exists k :: k <= region && c in k && TwoConnected(g, k)
  }

  ghost function Marked(region: set<nat>, blocked: seq<Mark>): set<nat> {
    set c | c in region && c < |blocked| && blocked[c] == Fringe
  }

  /** No set of region vertices with two neighbours each inside contains a marked vertex. */
  ghost predicate CoresUnmarked(g: Graph, region: set<nat>, blocked: seq<Mark>) {
    forall k :: k <= region && TwoConnected(g, k) ==> k !! Marked(region, blocked)
  }

  /** Marked vertices belong to no core; the degrees of the others count neighbours not yet peeled. */
  ghost predicate Peeling(g: Graph, region: set<nat>, blocked: seq<Mark>, degree: seq<int>, peeled: set<nat>) {
    && |blocked| == |degree| == |g| && region <= AllVertices(g)
    && peeled <= Marked(region, blocked)
    && (forall c :: c in region && blocked[c] != Fringe ==> degree[c] == CountIn(g[c], region - peeled) >= 2)
    && CoresUnmarked(g, region, blocked)
  }

  /** A vertex with fewer than two neighbours outside the marked ones lies in no core. */
  lemma FringeOutsideCores(g: Graph, region: set<nat>, blocked: seq<Mark>, left: set<nat>, v: nat)
    requires v in region && v < |blocked| == |g| && CoresUnmarked(g, region, blocked)
    requires region - Marked(region, blocked) <= left && CountIn(g[v], left) < 2
    ensures CoresUnmarked(g, region, blocked[v := Fringe])
  {
    forall k | k <= region && TwoConnected(g, k)
      ensures k !! Marked(region, blocked[v := Fringe])
    {
      CountMonotone(g[v], k, left);
      assert v !in k;
      assert Marked(region, blocked[v := Fringe]) <= Marked(region, blocked) + {v};
    }
  }

  /** When everything marked is peeled, the unmarked rest is the two-core. */
  lemma PeelingEnds(g: Graph, region: set<nat>, blocked: seq<Mark>, degree: seq<int>, c: nat)
    requires Peeling(g, region, blocked, degree, Marked(region, blocked)) && c in region
    ensures blocked[c] != Fringe <==> InTwoCore(g, region, c)
  {
    var rest := region - Marked(region, blocked);
    assert TwoConnected(g, rest);
  }

  /** The state of the peeling: the queue lists the marked cells, and the read ones are peeled. */
  ghost predicate PeelingAt(g: Graph, region: set<nat>, blocked: seq<Mark>, degree: seq<int>, queue: seq<nat>, read: nat) {
    && |blocked| == |degree| == |g| && region <= AllVertices(g) && read <= |queue|
    && Queued(queue, Marked(region, blocked))
    && Peeling(g, region, blocked, degree, Peeled(queue, read))
  }

  ghost function Peeled(queue: seq<nat>, read: nat): set<nat>
    requires read <= |queue|
  {
    set k | 0 <= k < read :: queue[k]
  }

  /** Counts the visited neighbours of one cell. */
  method VisitedDegree(g: Graph, index: nat, visited: array<bool>, ghost region: set<nat>) returns (count: nat)
    requires WellFormed(g) && index < |g| == visited.Length
    requires forall c :: 0 <= c < |g| ==> (visited[c] <==> c in region)
    ensures count == CountIn(g[index], region)
  {
    count := 0;
    for k := 0 to |g[index]|
      invariant count == CountIn(g[index][..k], region)
    {
      if visited[g[index][k]] {
        count := count + 1;
      }
      assert g[index][..k + 1] == g[index][..k] + [g[index][k]];
    }
    assert g[index][..|g[index]|] == g[index];
  }

  /** Marks a cell as fringe and queues it. */
  method MarkCell(g: Graph, ghost region: set<nat>, blocked: array<Mark>, queue: array<nat>, count: nat, v: nat)
    returns (write: nat)
    requires region <= AllVertices(g) && blocked.Length == queue.Length == |g| && count <= |g|
    requires Queued(queue[..count], Marked(region, blocked[..])) && v in region && blocked[v] != Fringe
    modifies blocked, queue
    ensures write == count + 1 <= |g| && blocked[..] == old(blocked[..])[v := Fringe]
    ensures queue[..count] == old(queue[..count])
    ensures Queued(queue[..write], Marked(region, blocked[..]))
  {
    hide Queued;
    MarkExtends(g, region, blocked[..], queue[..count], v);
    ghost var listed := queue[..count];
    blocked[v] := Fringe;
    queue[count] := v;
    write := count + 1;
    assert queue[..write] == listed + [v];
  }

  /** Computes the degrees of the visited cells and queues those with fewer than two visited neighbours. */
  method MarkFringe(g: Graph, blocked: array<Mark>, visited: array<bool>, degree: array<int>, queue: array<nat>,
                    ghost region: set<nat>)
    returns (write: nat)
    requires WellFormed(g) && region <= AllVertices(g)
    requires blocked.Length == visited.Length == degree.Length == queue.Length == |g|
    requires forall c :: 0 <= c < |g| ==> (visited[c] <==> c in region)
    requires forall c :: c in region ==> blocked[c] == Free
    modifies blocked, degree, queue
    ensures write <= |g| && PeelingAt(g, region, blocked[..], degree[..], queue[..write], 0)
  {
    hide Queued, Marked, CountIn, FringeMarked, Peeling;
    write := 0;
    FringeStarts(g, region, blocked[..], degree[..]);
    assert queue[..0] == [];
    for raw := 0 to |g|
      invariant write <= raw
      invariant Queued(queue[..write], Marked(region, blocked[..]))
      invariant FringeMarked(g, region, blocked[..], degree[..], raw)
    {
      if visited[raw] {
        var count := VisitedDegree(g, raw, visited, region);
        FringeStep(g, region, blocked[..], degree[..], raw);
        ghost var degrees := degree[..][raw := count];
        degree[raw] := count;
        assert degree[..] == degrees;
        if degree[raw] < 2 {
          write := MarkCell(g, region, blocked, queue, write, raw);
        }
      } else {
        FringeSkips(g, region, blocked[..], degree[..], raw);
      }
    }
    PeelingStarts(g, region, blocked[..], degree[..]);
    assert Peeled(queue[..write], 0) == {};
  }

  lemma FringeStarts(g: Graph, region: set<nat>, blocked: seq<Mark>, degree: seq<int>)
    requires |blocked| == |degree| == |g| && region <= AllVertices(g)
    requires forall c :: c in region ==> blocked[c] == Free
    ensures FringeMarked(g, region, blocked, degree, 0) && Queued([], Marked(region, blocked))
  {
    assert Marked(region, blocked) == {};
  }

  lemma FringeStep(g: Graph, region: set<nat>, blocked: seq<Mark>, degree: seq<int>, raw: nat)
    requires FringeMarked(g, region, blocked, degree, raw) && raw in region && raw < |g|
    ensures blocked[raw] == Free
    ensures var count := CountIn(g[raw], region);
            FringeMarked(g, region, if count < 2 then blocked[raw := Fringe] else blocked, degree[raw := count], raw + 1)
  {}

  lemma FringeSkips(g: Graph, region: set<nat>, blocked: seq<Mark>, degree: seq<int>, raw: nat)
    requires FringeMarked(g, region, blocked, degree, raw) && raw !in region
    ensures FringeMarked(g, region, blocked, degree, raw + 1)
  {}

  /** Cells with fewer than two visited neighbours are in no core. */
  lemma PeelingStarts(g: Graph, region: set<nat>, blocked: seq<Mark>, degree: seq<int>)
    requires FringeMarked(g, region, blocked, degree, |g|)
    ensures Peeling(g, region, blocked, degree, {})
  {
    assert region - {} == region;
    forall k, c | k <= region && TwoConnected(g, k) && c in k && c in Marked(region, blocked) ensures false {
      CountMonotone(g[c], k, region);
    }
  }

  /** Cells below n have their degree, and are marked when it is below two; the others are free. */
  ghost predicate FringeMarked(g: Graph, region: set<nat>, blocked: seq<Mark>, degree: seq<int>, n: nat) {
    && |blocked| == |degree| == |g| && region <= AllVertices(g)
    && (forall c :: c in region && c < n ==>
         degree[c] == CountIn(g[c], region) && (blocked[c] == Fringe <==> degree[c] < 2))
    && (forall c :: c in region && n <= c ==> blocked[c] == Free)
  }

  lemma MarkExtends(g: Graph, region: set<nat>, blocked: seq<Mark>, queue: seq<nat>, v: nat)
    requires Queued(queue, Marked(region, blocked)) && region <= AllVertices(g) && |blocked| == |g|
    requires v in region && blocked[v] != Fringe
    ensures |queue| < |g|
    ensures Marked(region, blocked[v := Fringe]) == Marked(region, blocked) + {v}
    ensures Queued(queue + [v], Marked(region, blocked[v := Fringe]))
  {
    VerticesBound(g, Marked(region, blocked), v);
    Enqueue(queue, Marked(region, blocked), v);
  }

  /** The peeling while the neighbours of u are being processed, the first n of them done. */
  ghost predicate PeelingInside(g: Graph, region: set<nat>, blocked: seq<Mark>, degree: seq<int>, peeled: set<nat>, u: nat, n: nat)
    requires u < |g|
  {
    && |blocked| == |degree| == |g| && region <= AllVertices(g) && n <= |g[u]|
    && u in region && u !in peeled && peeled + {u} <= Marked(region, blocked)
    && (forall c :: c in region && blocked[c] != Fringe ==>
         degree[c] == CountIn(g[c], region - peeled) - (if c in g[u][..n] then 1 else 0) && degree[c] >= 2)
    && CoresUnmarked(g, region, blocked)
  }

  /** A neighbour that is not visited, or is marked already, stays as it is. */
  lemma PeelSkips(g: Graph, region: set<nat>, blocked: seq<Mark>, degree: seq<int>, peeled: set<nat>, u: nat, n: nat)
    requires u < |g| && n < |g[u]| && PeelingInside(g, region, blocked, degree, peeled, u, n)
    requires g[u][n] in region ==> blocked[g[u][n]] == Fringe
    ensures PeelingInside(g, region, blocked, degree, peeled, u, n + 1)
  {
    assert g[u][..n + 1] == g[u][..n] + [g[u][n]];
  }

  /** The next neighbour of u loses a degree, and is marked when fewer than two are left. */
  lemma PeelLowers(g: Graph, region: set<nat>, blocked: seq<Mark>, degree: seq<int>, peeled: set<nat>, u: nat, n: nat)
    requires Symmetric(g) && Simple(g) && WellFormed(g) && u < |g| && n < |g[u]|
    requires PeelingInside(g, region, blocked, degree, peeled, u, n)
    requires g[u][n] in region && blocked[g[u][n]] != Fringe
    ensures var v := g[u][n];
            var lowered := degree[v := degree[v] - 1];
            && degree[v] > 0
            && PeelingInside(g, region, if lowered[v] < 2 then blocked[v := Fringe] else blocked, lowered, peeled, u, n + 1)
  {
    hide CountIn, CoresUnmarked;
    var v := g[u][n];
    var left := region - (peeled + {u});
    assert g[u][..n + 1] == g[u][..n] + [v];
    assert v in g[u] && u in g[v] && v !in g[u][..n];
    CountWithout(g[v], region - peeled, u);
    assert left == region - peeled - {u};
    if degree[v] - 1 < 2 {
      FringeOutsideCores(g, region, blocked, left, v);
      assert Marked(region, blocked) <= Marked(region, blocked[v := Fringe]);
    }
  }

  lemma PeelingTurns(g: Graph, region: set<nat>, blocked: seq<Mark>, degree: seq<int>, peeled: set<nat>, u: nat)
    requires u < |g| && u in Marked(region, blocked) && u !in peeled && Peeling(g, region, blocked, degree, peeled)
    ensures PeelingInside(g, region, blocked, degree, peeled, u, 0)
  {
    assert g[u][..0] == [];
  }

  lemma PeelingMovesOn(g: Graph, region: set<nat>, blocked: seq<Mark>, degree: seq<int>, peeled: set<nat>, u: nat)
    requires Symmetric(g) && Simple(g) && WellFormed(g) && u < |g|
    requires PeelingInside(g, region, blocked, degree, peeled, u, |g[u]|)
    ensures Peeling(g, region, blocked, degree, peeled + {u})
  {
    assert g[u][..|g[u]|] == g[u];
    forall c | c in region && blocked[c] != Fringe
      ensures degree[c] == CountIn(g[c], region - (peeled + {u}))
    {
      CountWithout(g[c], region - peeled, u);
      assert region - (peeled + {u}) == region - peeled - {u};
    }
  }

  /** Processes one queued cell: its neighbours lose a degree. */
  method PeelOne(g: Graph, u: nat, blocked: array<Mark>, visited: array<bool>, degree: array<int>, queue: array<nat>,
                 count: nat, ghost region: set<nat>, ghost peeled: set<nat>)
    returns (write: nat)
    requires WellFormed(g) && Symmetric(g) && Simple(g) && u < |g|
    requires blocked.Length == visited.Length == degree.Length == queue.Length == |g| && count <= |g|
    requires forall c :: 0 <= c < |g| ==> (visited[c] <==> c in region)
    requires Queued(queue[..count], Marked(region, blocked[..]))
    requires u in Marked(region, blocked[..]) && u !in peeled
    requires region <= AllVertices(g)
    requires Peeling(g, region, blocked[..], degree[..], peeled)
    modifies blocked, degree, queue
    ensures count <= write <= |g| && queue[..count] == old(queue[..count])
    ensures Queued(queue[..write], Marked(region, blocked[..]))
    ensures Peeling(g, region, blocked[..], degree[..], peeled + {u})
  {
    hide Queued, Marked, CountIn, PeelingInside, Peeling;
    write := count;
    PeelingTurns(g, region, blocked[..], degree[..], peeled, u);
    for n := 0 to |g[u]|
      invariant count <= write <= |g| && queue[..count] == old(queue[..count])
      invariant Queued(queue[..write], Marked(region, blocked[..]))
      invariant PeelingInside(g, region, blocked[..], degree[..], peeled, u, n)
    {
      var next := g[u][n];
      if visited[next] && blocked[next] != Fringe {
        PeelLowers(g, region, blocked[..], degree[..], peeled, u, n);
      } else {
        PeelSkips(g, region, blocked[..], degree[..], peeled, u, n);
      }
      if visited[next] && blocked[next] != Fringe && degree[next] > 0 {
        ghost var lowered := degree[..][next := degree[next] - 1];
        degree[next] := degree[next] - 1;
        assert degree[..] == lowered;
        if degree[next] < 2 {
          write := MarkCell(g, region, blocked, queue, write, next);
        }
      }
    }
    PeelingMovesOn(g, region, blocked[..], degree[..], peeled, u);
  }

  /** Peels the region until every cell left has two neighbours left; every cell is queued at most once. */
  method Peel(g: Graph, start: nat, blocked: array<Mark>, visited: array<bool>, degree: array<int>, queue: array<nat>,
              ghost region: set<nat>)
    returns (inCore: bool)
    requires WellFormed(g) && Symmetric(g) && Simple(g) && region <= AllVertices(g)
    requires blocked.Length == visited.Length == degree.Length == queue.Length == |g|
    requires forall c :: 0 <= c < |g| ==> (visited[c] <==> c in region)
    requires forall c :: c in region ==> blocked[c] == Free
    requires start in region
    modifies blocked, degree, queue
    ensures inCore <==> InTwoCore(g, region, start)
  {
    hide Queued, Marked, CountIn, Peeling, Peeled;
    var write := MarkFringe(g, blocked, visited, degree, queue, region);
    var read := 0;
    while read < write
      invariant 0 <= read <= write <= |g|
      invariant PeelingAt(g, region, blocked[..], degree[..], queue[..write], read)
      decreases |g| - read
    {
      var index, count := queue[read], write;
      ghost var before := queue[..write];
      QueueFront(before, Marked(region, blocked[..]), read);
      MarkedInside(g, region, blocked[..]);
      assert before[read] == index;
      write := PeelOne(g, index, blocked, visited, degree, queue, count, region, Peeled(before, read));
      read := read + 1;
      assert queue[..write][..count] == before;
      PeeledAgrees(before, queue[..write], read - 1);
    }
    PeeledAll(queue[..write], Marked(region, blocked[..]));
    PeelingEnds(g, region, blocked[..], degree[..], start);
    inCore := blocked[start] != Fringe;
  }

  lemma MarkedInside(g: Graph, region: set<nat>, blocked: seq<Mark>)
    requires region <= AllVertices(g)
    ensures forall c :: c in Marked(region, blocked) ==> c < |g|
  {}

  lemma QueueFront(queue: seq<nat>, seen: set<nat>, read: nat)
    requires Queued(queue, seen) && read < |queue|
    ensures queue[read] in seen && queue[read] !in Peeled(queue, read)
  {}

  /** Later entries of the queue do not change what is peeled. */
  lemma PeeledAgrees(before: seq<nat>, after: seq<nat>, read: nat)
    requires read < |before| <= |after| && after[..|before|] == before
    ensures Peeled(after, read + 1) == Peeled(before, read) + {before[read]}
  {
    assert forall k :: 0 <= k < |before| ==> after[k] == after[..|before|][k];
  }

  lemma PeeledAll(queue: seq<nat>, seen: set<nat>)
    requires Queued(queue, seen)
    ensures Peeled(queue, |queue|) == seen
  {}
}

/**
 Best-first search with a consistent estimate as a state machine on values: why the
 first time the goal is taken from the frontier its score is the length of a shortest walk.
 */
module BestFirst {
  import opened Graphs
  import opened Counting
  import opened Limits

  /** The estimate never drops by more than one along an edge. */
  ghost predicate Consistent(g: Graph, h: seq<nat>) {
    |h| == |g| && forall u: nat, v: nat :: v < |g| && Edge(g, u, v) ==> h[u] <= h[v] + 1
  }

  ghost predicate Scored(score: seq<int>, v: nat) {
    v < |score| && score[v] < INT_MAX
  }

  /** Scores count steps along tree parents, which are closed. */
  ghost predicate Parents(g: Graph, open: set<nat>, start: nat, score: seq<int>, parent: seq<int>, closed: set<nat>) {
    && |score| == |parent| == |g| && start < |g| && score[start] == 0 && parent[start] == -1
    && forall v: nat :: Scored(score, v) && v != start ==>
         v in open && 0 <= parent[v] < |g| && parent[v] in closed && Edge(g, parent[v], v) && score[v] == score[parent[v]] + 1
  }

  /** A vertex has a score exactly when it waits in the frontier or is closed. */
  ghost predicate Split(score: seq<int>, frontier: set<nat>, closed: set<nat>) {
    && frontier !! closed
    && forall v: nat :: Scored(score, v) <==> v in frontier || v in closed
  }

  /** The score of v is at most one step more than that of u. */
  ghost predicate Relaxed(score: seq<int>, u: nat, v: nat) {
    Scored(score, u) && Scored(score, v) && score[v] <= score[u] + 1
  }

  /** All edges out of closed vertices are relaxed, those of u only among its first k neighbours. */
  ghost predicate AllRelaxed(g: Graph, open: set<nat>, score: seq<int>, closed: set<nat>, u: nat, k: nat) {
    forall c, l :: c in closed && c < |g| && 0 <= l < |g[c]| && g[c][l] in open && (c != u || l < k) ==>
      Relaxed(score, c, g[c][l])
  }

  ghost function Total(h: seq<nat>, score: seq<int>, v: nat): int {
    if v < |h| && v < |score| then score[v] + h[v] else 0
  }

  /** No closed vertex promises more than a waiting one. */
  ghost predicate Monotone(h: seq<nat>, score: seq<int>, frontier: set<nat>, closed: set<nat>) {
    forall c, v :: c in closed && v in frontier ==> Total(h, score, c) <= Total(h, score, v)
  }

  ghost predicate NonNegative(score: seq<int>) {
    forall v :: 0 <= v < |score| ==> score[v] >= 0
  }

  /** The state of the search; vertex u is being expanded and its first k neighbours are done. */
  ghost predicate Inv(g: Graph, open: set<nat>, start: nat, h: seq<nat>, score: seq<int>, parent: seq<int>,
                      frontier: set<nat>, closed: set<nat>, u: nat, k: nat) {
    && Parents(g, open, start, score, parent, closed) && Split(score, frontier, closed) && NonNegative(score)
    && AllRelaxed(g, open, score, closed, u, k) && Monotone(h, score, frontier, closed)
  }

  /** Between expansions. */
  ghost predicate Idle(g: Graph, open: set<nat>, start: nat, h: seq<nat>, score: seq<int>, parent: seq<int>,
                       frontier: set<nat>, closed: set<nat>) {
    Inv(g, open, start, h, score, parent, frontier, closed, |g|, 0)
  }

  ghost predicate Setting(g: Graph, open: set<nat>, start: nat, h: seq<nat>) {
    WellFormed(g) && Consistent(g, h) && start < |g| <= INT_MAX && forall c :: c in open ==> c < |g|
  }

  lemma Starts(g: Graph, open: set<nat>, start: nat, h: seq<nat>)
    requires Setting(g, open, start, h)
    ensures Idle(g, open, start, h, seq(|g|, _ => INT_MAX)[start := 0], seq(|g|, _ => -1), {start}, {})
  {}

  ghost predicate Minimal(h: seq<nat>, score: seq<int>, frontier: set<nat>, u: nat) {
    u in frontier && forall v :: v in frontier ==> Total(h, score, u) <= Total(h, score, v)
  }

  /** A vertex of least total is closed, and its expansion begins. */
  lemma Close(g: Graph, open: set<nat>, start: nat, h: seq<nat>, score: seq<int>, parent: seq<int>,
              frontier: set<nat>, closed: set<nat>, u: nat)
    requires Setting(g, open, start, h) && Idle(g, open, start, h, score, parent, frontier, closed)
    requires Minimal(h, score, frontier, u)
    ensures Inv(g, open, start, h, score, parent, frontier - {u}, closed + {u}, u, 0)
    ensures Expanding(g, h, score, frontier - {u}, closed + {u}, u) && u !in closed
  {}

  /** Vertex u is closed, and its total is the largest closed and not above any waiting one. */
  ghost predicate Expanding(g: Graph, h: seq<nat>, score: seq<int>, frontier: set<nat>, closed: set<nat>, u: nat) {
    && u in closed && u < |g| && Scored(score, u)
    && (forall c :: c in closed ==> Total(h, score, c) <= Total(h, score, u))
    && (forall v :: v in frontier ==> Total(h, score, u) <= Total(h, score, v))
  }

  /** A neighbour that is blocked, closed or scored well enough needs nothing. */
  lemma PassOver(g: Graph, open: set<nat>, start: nat, h: seq<nat>, score: seq<int>, parent: seq<int>,
                 frontier: set<nat>, closed: set<nat>, u: nat, k: nat)
    requires Setting(g, open, start, h) && Inv(g, open, start, h, score, parent, frontier, closed, u, k)
    requires Expanding(g, h, score, frontier, closed, u) && k < |g[u]|
    requires var v := g[u][k]; v !in open || v in closed || (Scored(score, v) && score[v] <= score[u] + 1)
    ensures Inv(g, open, start, h, score, parent, frontier, closed, u, k + 1)
  {}

  /** A neighbour with a worse score is reached through u instead. */
  lemma Improve(g: Graph, open: set<nat>, start: nat, h: seq<nat>, score: seq<int>, parent: seq<int>,
                frontier: set<nat>, closed: set<nat>, u: nat, k: nat)
    requires Setting(g, open, start, h) && Inv(g, open, start, h, score, parent, frontier, closed, u, k)
    requires Expanding(g, h, score, frontier, closed, u) && k < |g[u]|
    requires var v := g[u][k]; v in open && v !in closed && v < |score| && score[u] + 1 < score[v] && score[u] + 1 < INT_MAX
    ensures var v := g[u][k];
            var score' := score[v := score[u] + 1];
            && Inv(g, open, start, h, score', parent[v := u], frontier + {v}, closed, u, k + 1)
            && Expanding(g, h, score', frontier + {v}, closed, u)
  {
    var v := g[u][k];
    var score' := score[v := score[u] + 1];
    assert Edge(g, u, v);
    assert v != u && v != start;
    forall c: nat | c != v ensures Total(h, score', c) == Total(h, score, c) {}
    ImproveRelaxed(g, open, score, closed, u, k);
  }

  lemma ImproveRelaxed(g: Graph, open: set<nat>, score: seq<int>, closed: set<nat>, u: nat, k: nat)
    requires AllRelaxed(g, open, score, closed, u, k) && u in closed && u < |g| && k < |g[u]|
    requires Scored(score, u)
    requires var v := g[u][k]; v !in closed && v < |score| && score[u] + 1 < score[v] && score[u] + 1 < INT_MAX
    ensures AllRelaxed(g, open, score[g[u][k] := score[u] + 1], closed, u, k + 1)
  {}

  lemma Expanded(g: Graph, open: set<nat>, start: nat, h: seq<nat>, score: seq<int>, parent: seq<int>,
                 frontier: set<nat>, closed: set<nat>, u: nat)
    requires u < |g| && Inv(g, open, start, h, score, parent, frontier, closed, u, |g[u]|)
    ensures Idle(g, open, start, h, score, parent, frontier, closed)
  {}

  /** The tree path to a scored vertex. */
  lemma {:induction false} TreePath(g: Graph, open: set<nat>, start: nat, score: seq<int>, parent: seq<int>, closed: set<nat>,
                                    v: nat)
    returns (p: seq<nat>)
    requires Parents(g, open, start, score, parent, closed) && NonNegative(score) && Scored(score, v)
    requires forall c :: c in closed ==> Scored(score, c)
    ensures IsWalkBetween(g, open, start, v, p) && |p| == score[v] + 1
    ensures forall i :: 0 <= i < |p| ==> p[i] < |g| && score[p[i]] == i
    ensures forall i {:trigger p[i]} :: 0 < i < |p| ==> parent[p[i]] == p[i - 1]
    decreases score[v]
  {
    if v == start {
      p := [v];
    } else {
      p := TreePath(g, open, start, score, parent, closed, parent[v]);
      p := p + [v];
    }
  }

  /** Scores stay below the number of vertices. */
  lemma ScoreBelowSize(g: Graph, open: set<nat>, start: nat, score: seq<int>, parent: seq<int>, closed: set<nat>, v: nat)
    requires Parents(g, open, start, score, parent, closed) && NonNegative(score) && Scored(score, v)
    requires forall c :: c in closed ==> Scored(score, c)
    ensures score[v] < |g|
    ensures forall x: nat :: x < |g| && !Scored(score, x) ==> score[v] + 1 < |g|
  {
    var p := TreePath(g, open, start, score, parent, closed, v);
    assert forall i, j :: 0 <= i < j < |p| ==> score[p[i]] != score[p[j]];
    DistinctBound(p, |g|);
    forall x: nat | x < |g| && !Scored(score, x) ensures x !in p {
      assert forall i :: 0 <= i < |p| ==> score[p[i]] == i <= score[v];
    }
  }

  /** A walk along closed vertices is no shorter than the scores. */
  lemma {:induction false} ScoreBelowWalk(g: Graph, open: set<nat>, start: nat, h: seq<nat>, score: seq<int>, parent: seq<int>,
                                          frontier: set<nat>, closed: set<nat>, p: seq<nat>, i: nat)
    requires Setting(g, open, start, h) && Idle(g, open, start, h, score, parent, frontier, closed)
    requires IsWalk(g, open, p) && p[0] == start && i < |p| && forall j :: 0 <= j < i ==> p[j] in closed
    ensures Scored(score, p[i]) && score[p[i]] <= i
  {
    if i > 0 {
      ScoreBelowWalk(g, open, start, h, score, parent, frontier, closed, p, i - 1);
      var j := i - 1;
      assert Edge(g, p[j], p[j + 1]) && p[j + 1] in open;
      var l :| 0 <= l < |g[p[j]]| && g[p[j]][l] == p[j + 1];
      assert Relaxed(score, p[j], g[p[j]][l]);
    }
  }

  /** The estimate bounds the rest of a walk. */
  lemma {:induction false} EstimateBelowRest(g: Graph, open: set<nat>, h: seq<nat>, p: seq<nat>, i: nat)
    requires Consistent(g, h) && WellFormed(g) && IsWalk(g, open, p) && p[0] < |g| && i < |p|
    ensures p[i] < |g| && p[|p| - 1] < |g| && h[p[i]] <= h[p[|p| - 1]] + |p| - 1 - i
    decreases |p| - i
  {
    WalkInRange(g, open, p, i);
    if i < |p| - 1 {
      EstimateBelowRest(g, open, h, p, i + 1);
      assert Edge(g, p[i], p[i + 1]);
    }
  }

  lemma {:induction false} WalkInRange(g: Graph, open: set<nat>, p: seq<nat>, i: nat)
    requires WellFormed(g) && IsWalk(g, open, p) && p[0] < |g| && i < |p|
    ensures p[i] < |g|
  {
    if i > 0 {
      WalkInRange(g, open, p, i - 1);
      var j := i - 1;
      assert Edge(g, p[j], p[j + 1]);
    }
  }

  /** A goal of least total in the frontier: no walk to it is shorter than its score. */
  lemma GoalIsNearest(g: Graph, open: set<nat>, start: nat, h: seq<nat>, score: seq<int>, parent: seq<int>,
                      frontier: set<nat>, closed: set<nat>, goal: nat, p: seq<nat>)
    requires Setting(g, open, start, h) && Idle(g, open, start, h, score, parent, frontier, closed)
    requires Minimal(h, score, frontier, goal) && goal < |g| && h[goal] == 0
    requires IsWalkBetween(g, open, start, goal, p)
    ensures score[goal] + 1 <= |p|
  {
    var i := FirstOutside(p, closed, goal);
    ScoreBelowWalk(g, open, start, h, score, parent, frontier, closed, p, i);
    EstimateBelowRest(g, open, h, p, i);
    assert p[i] in frontier;
    assert Total(h, score, goal) <= Total(h, score, p[i]);
  }

  lemma FirstOutside(p: seq<nat>, closed: set<nat>, goal: nat) returns (i: nat)
    requires |p| > 0 && p[|p| - 1] == goal && goal !in closed
    ensures i < |p| && p[i] !in closed && forall j :: 0 <= j < i ==> p[j] in closed
  {
    i := 0;
    while p[i] in closed
      invariant i < |p| && forall j :: 0 <= j < i ==> p[j] in closed
      decreases |p| - i
    {
      i := i + 1;
    }
  }

  /** With nothing waiting, only closed vertices can be reached. */
  lemma Exhausted(g: Graph, open: set<nat>, start: nat, h: seq<nat>, score: seq<int>, parent: seq<int>, closed: set<nat>,
                  goal: nat)
    requires Setting(g, open, start, h) && Idle(g, open, start, h, score, parent, {}, closed) && goal !in closed
    ensures !Reaches(g, open, start, goal)
  {
    assert Scored(score, start);
    forall u, v | u in closed && Edge(g, u, v) && v in open ensures v in closed {
      var l :| 0 <= l < |g[u]| && g[u][l] == v;
      assert Relaxed(score, u, g[u][l]);
    }
    if Reaches(g, open, start, goal) {
      ReachesStaysInside(g, open, closed, start, goal);
      assert false;
    }
  }
}

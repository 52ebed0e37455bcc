/**
 The iterative depth-first search that finds the choke points: the loop over its
 arrays runs the state machine of LowLink until the stack is empty.
 */
module ChokeSearch {
  import opened Graphs
  import opened LowLink
  import opened ChokePoints
  import Counting

  /** Sizes and ranges that hold whether or not the root itself is blocked. */
  ghost predicate Sane(g: Graph, s: Search) {
    && |s.clock.disc| == |s.clock.fin| == |s.parent| == |s.low| == |s.next| == |s.cut| == |g|
    && (forall i :: 0 <= i < |s.stack| ==> s.stack[i] < |g| && s.clock.disc[s.stack[i]] > 0)
    && (forall i, j :: 0 <= i < j < |s.stack| ==> s.stack[i] != s.stack[j])
    && (forall v :: 0 <= v < |g| ==> -1 <= s.parent[v] < |g| && s.next[v] <= |g[v]|)
  }

  /** Neighbours still to be scanned by the vertices below n. */
  ghost function Work(g: Graph, next: seq<nat>, n: nat): nat
    requires |next| == |g| && n <= |g|
  {
    if n == 0 then 0
    else Work(g, next, n - 1) + (if next[n - 1] <= |g[n - 1]| then |g[n - 1]| - next[n - 1] else 0)
  }

  lemma {:induction false} WorkShrinks(g: Graph, next: seq<nat>, u: nat, n: nat)
    requires |next| == |g| && n <= |g| && u < |g| && next[u] < |g[u]|
    ensures Work(g, next[u := next[u] + 1], n) == Work(g, next, n) - (if u < n then 1 else 0)
  {
    if n > 0 {
      WorkShrinks(g, next, u, n - 1);
    }
  }

  ghost function Measure(g: Graph, s: Search): nat
    requires |s.next| == |g|
  {
    2 * Work(g, s.next, |g|) + |s.stack|
  }

  /** One round of the loop. */
  ghost function Advance(g: Graph, open: set<nat>, s: Search): Search
    requires WellFormed(g) && Sane(g, s) && s.stack != []
  {
    var u := Current(s);
    if s.next[u] == |g[u]| then AfterFinish(s, u)
    else if Turn(g, s) !in open then s.(next := Ticked(g, s))
    else if s.clock.disc[Turn(g, s)] == 0 then AfterDiscovery(g, s, u, Turn(g, s))
    else s.(next := Ticked(g, s), low := Lowered(s.low, s.clock, s.parent, u, Turn(g, s)))
  }

  lemma AdvanceSane(g: Graph, open: set<nat>, s: Search)
    requires WellFormed(g) && Sane(g, s) && s.stack != []
    ensures Sane(g, Advance(g, open, s))
  {}

  lemma AdvanceShrinks(g: Graph, open: set<nat>, s: Search)
    requires WellFormed(g) && Sane(g, s) && s.stack != []
    ensures Sane(g, Advance(g, open, s)) && Measure(g, Advance(g, open, s)) < Measure(g, s)
  {
    AdvanceSane(g, open, s);
    if s.next[Current(s)] < |g[Current(s)]| {
      WorkShrinks(g, s.next, Current(s), |g|);
    }
    hide Sane;
  }

  /** The state in which the loop stops. */
  ghost function Outcome(g: Graph, open: set<nat>, s: Search): Search
    requires WellFormed(g) && Sane(g, s)
    decreases Measure(g, s)
  {
    if s.stack == [] then s
    else
      AdvanceShrinks(g, open, s);
      Outcome(g, open, Advance(g, open, s))
  }

  lemma AdvanceKeeps(g: Graph, open: set<nat>, root: nat, s: Search)
    requires Setting(g, open, root) && Inv(g, open, root, s) && Sane(g, s) && s.stack != []
    ensures Inv(g, open, root, Advance(g, open, s))
  {
    hide Inv;
    if s.next[Current(s)] == |g[Current(s)]| {
      FinishKeeps(g, open, root, s);
    } else if Turn(g, s) !in open {
      SkipKeeps(g, open, root, s);
    } else if s.clock.disc[Turn(g, s)] == 0 {
      DiscoverKeeps(g, open, root, s);
    } else {
      BackEdgeKeeps(g, open, root, s);
    }
  }

  lemma {:induction false} OutcomeKeeps(g: Graph, open: set<nat>, root: nat, s: Search)
    requires Setting(g, open, root) && Inv(g, open, root, s) && Sane(g, s)
    ensures Done(g, open, root, Outcome(g, open, s))
    decreases Measure(g, s)
  {
    hide Inv;
    if s.stack != [] {
      AdvanceShrinks(g, open, s);
      AdvanceKeeps(g, open, root, s);
      OutcomeKeeps(g, open, root, Advance(g, open, s));
    }
  }

  /** The k-th neighbour of u is e, and all open ones listed before were discovered earlier. */
  ghost predicate ListedAt(g: Graph, open: set<nat>, c: Clock, u: int, e: nat, k: nat) {
    && 0 <= u < |g| && k < |g[u]| && g[u][k] == e && Found(c, e)
    && forall j :: 0 <= j < k && Open(g, open, u, j) ==> Found(c, g[u][j]) && c.disc[g[u][j]] < c.disc[e]
  }

  /** Children were discovered in the order in which their parents list them. */
  ghost predicate Listed(g: Graph, open: set<nat>, root: nat, s: Search) {
    forall e: nat :: Found(s.clock, e) && e != root && e < |s.parent| ==>
      exists k: nat :: ListedAt(g, open, s.clock, s.parent[e], e, k)
  }

  lemma NewlyListed(g: Graph, open: set<nat>, c: Clock, next: seq<nat>, u: nat, v: nat)
    requires Times(c) && Scanned(g, open, c, next) && u < |g| && next[u] < |g[u]| && g[u][next[u]] == v
    requires v < |c.disc| && !Found(c, v)
    ensures ListedAt(g, open, Discovered(c, v), u, v, next[u])
  {
    forall j | 0 <= j < next[u] && Open(g, open, u, j) ensures Found(c, g[u][j]) && g[u][j] != v {}
  }

  lemma StillListed(g: Graph, open: set<nat>, c: Clock, u: int, e: nat, k: nat, v: nat)
    requires ListedAt(g, open, c, u, e, k) && v < |c.disc| && !Found(c, v)
    ensures ListedAt(g, open, Discovered(c, v), u, e, k)
  {}

  lemma DiscoveryLists(g: Graph, open: set<nat>, root: nat, s: Search)
    requires Setting(g, open, root) && Inv(g, open, root, s) && Scanning(g, s) && Listed(g, open, root, s)
    requires Turn(g, s) in open && !Found(s.clock, Turn(g, s))
    ensures Listed(g, open, root, AfterDiscovery(g, s, Current(s), Turn(g, s)))
  {
    hide Times, Scanned, Path, Tree, Nested, LowBound, LowAttained, Flags, ListedAt;
    var c, u, v := s.clock, Current(s), Turn(g, s);
    CurrentFacts(g, open, root, s, v);
    NewlyListed(g, open, c, s.next, u, v);
    var t := AfterDiscovery(g, s, u, v);
    forall e: nat | Found(t.clock, e) && e != root && e < |t.parent|
      ensures exists k: nat :: ListedAt(g, open, t.clock, t.parent[e], e, k)
    {
      if e == v {
        assert ListedAt(g, open, t.clock, t.parent[v], v, s.next[u]);
      } else {
        var k: nat :| ListedAt(g, open, c, s.parent[e], e, k);
        StillListed(g, open, c, s.parent[e], e, k, v);
        assert ListedAt(g, open, t.clock, t.parent[e], e, k);
      }
    }
  }

  lemma AdvanceLists(g: Graph, open: set<nat>, root: nat, s: Search)
    requires Setting(g, open, root) && Inv(g, open, root, s) && Sane(g, s) && s.stack != [] && Listed(g, open, root, s)
    ensures Listed(g, open, root, Advance(g, open, s))
  {
    hide Inv, ListedAt;
    if s.next[Current(s)] < |g[Current(s)]| && Turn(g, s) in open && s.clock.disc[Turn(g, s)] == 0 {
      DiscoveryLists(g, open, root, s);
    } else {
      SameDiscoveries(g, open, root, s, Advance(g, open, s));
    }
  }

  lemma SameDiscoveries(g: Graph, open: set<nat>, root: nat, s: Search, t: Search)
    requires Listed(g, open, root, s) && t.clock.disc == s.clock.disc && t.parent == s.parent
    ensures Listed(g, open, root, t)
  {
    forall e: nat | Found(t.clock, e) && e != root && e < |t.parent|
      ensures exists k: nat :: ListedAt(g, open, t.clock, t.parent[e], e, k)
    {
      var k: nat :| ListedAt(g, open, s.clock, s.parent[e], e, k);
      assert ListedAt(g, open, t.clock, t.parent[e], e, k);
    }
  }

  lemma {:induction false} OutcomeLists(g: Graph, open: set<nat>, root: nat, s: Search)
    requires Setting(g, open, root) && Inv(g, open, root, s) && Sane(g, s) && Listed(g, open, root, s)
    ensures Listed(g, open, root, Outcome(g, open, s))
    decreases Measure(g, s)
  {
    hide Inv, Listed;
    if s.stack != [] {
      AdvanceShrinks(g, open, s);
      AdvanceKeeps(g, open, root, s);
      AdvanceLists(g, open, root, s);
      OutcomeLists(g, open, root, Advance(g, open, s));
    }
  }

  /** The search run from its start to its end. */
  lemma FinishedSearch(g: Graph, open: set<nat>, root: nat) returns (s: Search)
    requires Setting(g, open, root)
    ensures Done(g, open, root, s) && Listed(g, open, root, s) && s.cut == Reports(g, open, root)
  {
    hide Inv, Outcome;
    StartKeeps(g, open, root);
    var s0 := Start(|g|, root);
    assert forall v: nat :: Found(s0.clock, v) <==> v == root;
    OutcomeKeeps(g, open, root, s0);
    OutcomeLists(g, open, root, s0);
    s := Outcome(g, open, s0);
  }

  ghost function Reports(g: Graph, open: set<nat>, root: nat): seq<bool>
    requires WellFormed(g) && root < |g|
  {
    Outcome(g, open, Start(|g|, root)).cut
  }

  /** From an open root the search reports exactly the cut vertices. */
  lemma ReportsExactly(g: Graph, open: set<nat>, root: nat, v: nat)
    requires Setting(g, open, root) && root in open && v < |g|
    ensures |Reports(g, open, root)| == |g| && (Reports(g, open, root)[v] <==> CutVertex(g, open, root, v))
  {
    hide Inv, CutVertex, Reports, Listed;
    var s := FinishedSearch(g, open, root);
    RootIsApex(g, open, root, s);
    if v == root || !Reaches(g, open, root, v) {
      ReportsOnlyReachable(g, open, root, s, v);
      NothingBehind(g, open, root, v);
    } else {
      ApexComponent(g, open, root, s, root, v);
      ReportsOnlyReachable(g, open, root, s, root);
      ReportsCutVertices(g, open, root, s, root, v);
    }
  }

  lemma RootIsApex(g: Graph, open: set<nat>, root: nat, s: Search)
    requires Done(g, open, root, s) && root in open
    ensures Apex(g, open, root, s, root)
  {}

  lemma NothingBehind(g: Graph, open: set<nat>, root: nat, v: nat)
    requires v == root || !Reaches(g, open, root, v)
    ensures !CutVertex(g, open, root, v)
  {
    if v != root {
      forall w | Reaches(g, open, root, w) ensures Reaches(g, open - {v}, root, w) {
        AvoidsUnreachable(g, open, root, v, w);
      }
    }
  }

  /** A report is never withdrawn. */
  lemma {:induction false} ReportsPersist(g: Graph, open: set<nat>, s: Search, v: nat)
    requires WellFormed(g) && Sane(g, s) && v < |g| && s.cut[v]
    ensures |Outcome(g, open, s).cut| == |g| && Outcome(g, open, s).cut[v]
    decreases Measure(g, s)
  {
    if s.stack != [] {
      AdvanceShrinks(g, open, s);
      ReportsPersist(g, open, Advance(g, open, s), v);
    }
  }

  const SQUARE: Graph := [[2, 1], [3, 0], [0, 3], [1, 2]]

  function SquareSearch(disc: seq<nat>, now: nat, parent: seq<int>, next: seq<nat>, stack: seq<nat>): Search {
    Search(Clock(disc, [0, 0, 0, 0], now), parent, disc, next, [false, false, false, false], stack)
  }

  /** The search on the square, entered from its blocked corner 0, after k rounds. */
  function SquareState(k: nat): Search {
    if k == 0 then SquareSearch([1, 0, 0, 0], 1, [-1, -1, -1, -1], [0, 0, 0, 0], [0])
    else if k == 1 then SquareSearch([1, 0, 2, 0], 2, [-1, -1, 0, -1], [1, 0, 0, 0], [0, 2])
    else if k == 2 then SquareSearch([1, 0, 2, 0], 2, [-1, -1, 0, -1], [1, 0, 1, 0], [0, 2])
    else if k == 3 then SquareSearch([1, 0, 2, 3], 3, [-1, -1, 0, 2], [1, 0, 2, 0], [0, 2, 3])
    else if k == 4 then SquareSearch([1, 4, 2, 3], 4, [-1, 3, 0, 2], [1, 0, 2, 1], [0, 2, 3, 1])
    else SquareSearch([1, 4, 2, 3], 4, [-1, 3, 0, 2], [1, if k == 5 then 1 else 2, 2, 1], [0, 2, 3, 1])
  }

  lemma SquareTurn(k: nat, s: Search)
    requires k < 6 && s == SquareState(k) && WellFormed(SQUARE) && Sane(SQUARE, s)
    ensures s.stack != [] && Advance(SQUARE, {1, 2, 3}, s) == SquareState(k + 1)
  {
    hide WellFormed, Sane;
    assert Turn(SQUARE, s) == [2, 0, 3, 1, 3, 0][k];
  }

  lemma {:induction false} SquareRuns(k: nat)
    requires k <= 6 && WellFormed(SQUARE) && Sane(SQUARE, SquareState(0))
    ensures Sane(SQUARE, SquareState(k))
    ensures Outcome(SQUARE, {1, 2, 3}, SquareState(0)) == Outcome(SQUARE, {1, 2, 3}, SquareState(k))
  {
    if k > 0 {
      SquareRuns(k - 1);
      SquareTurn(k - 1, SquareState(k - 1));
      AdvanceSane(SQUARE, {1, 2, 3}, SquareState(k - 1));
      hide SquareState, Advance, WellFormed, Sane;
    }
  }

  lemma SquareReports(s: Search)
    requires s == SquareState(6) && WellFormed(SQUARE) && Sane(SQUARE, s)
    ensures s.stack != [] && |Advance(SQUARE, {1, 2, 3}, s).cut| == 4 && Advance(SQUARE, {1, 2, 3}, s).cut[3]
  {
    hide WellFormed, Sane;
    assert Current(s) == 1;
  }

  /** On a square entered from a blocked corner, the search reports a vertex that cuts nothing off. */
  lemma BlockedRootOverReports()
    ensures WellFormed(SQUARE) && |Reports(SQUARE, {1, 2, 3}, 0)| == 4
    ensures Reports(SQUARE, {1, 2, 3}, 0)[3] && !CutVertex(SQUARE, {1, 2, 3}, 0, 3)
  {
    assert Start(4, 0) == SquareState(0);
    assert WellFormed(SQUARE) && Sane(SQUARE, SquareState(0));
    hide Sane, WellFormed, SquareState, Start, Advance, Outcome, CutVertex;
    SquareRuns(6);
    SquareReports(SquareState(6));
    AdvanceSane(SQUARE, {1, 2, 3}, SquareState(6));
    ReportsPersist(SQUARE, {1, 2, 3}, Advance(SQUARE, {1, 2, 3}, SquareState(6)), 3);
    OutcomeAdvances(SQUARE, {1, 2, 3}, SquareState(6));
    SquareAround();
  }

  lemma SquareAround()
    ensures !CutVertex(SQUARE, {1, 2, 3}, 0, 3)
  {
    ReachesSelf(SQUARE, {1, 2}, 0);
    ReachesStep(SQUARE, {1, 2}, 0, 0, 1);
    ReachesStep(SQUARE, {1, 2}, 0, 0, 2);
    assert {1, 2, 3} - {3} == {1, 2};
    forall w | Reaches(SQUARE, {1, 2, 3}, 0, w) && w != 3 ensures Reaches(SQUARE, {1, 2}, 0, w) {
      ReachesStaysInside(SQUARE, {1, 2, 3}, {0, 1, 2, 3}, 0, w);
    }
  }

  /** A stack of distinct vertices has room for one more. */
  lemma StackHasRoom(g: Graph, s: Search, v: nat)
    requires Sane(g, s) && v < |g| && s.clock.disc[v] == 0
    ensures |s.stack| < |g|
  {
    assert v !in s.stack;
    Counting.DistinctBound(s.stack, |g|);
  }

  /** The arrays of the loop hold the state s. */
  ghost predicate Holds(s: Search, disc: seq<nat>, low: seq<nat>, parent: seq<int>, next: seq<nat>, cut: seq<bool>,
                        stack: seq<nat>, timer: nat) {
    && s.clock.disc == disc && s.low == low && s.parent == parent && s.next == next && s.cut == cut
    && s.stack == stack && s.clock.now == timer
  }

  /** Looks at the next neighbour of the vertex on top of the stack. */
  method ScanNeighbor(g: Graph, blocked: array<bool>, disc: array<nat>, low: array<nat>, parent: array<int>,
                      next: array<nat>, stack: array<nat>, timer: nat, count: nat, ghost s: Search)
    returns (timer': nat, count': nat)
    requires WellFormed(g) && Sane(g, s) && s.stack != [] && s.next[Current(s)] < |g[Current(s)]|
    requires |g| == blocked.Length == stack.Length && count <= |g| && disc != next && disc != stack && next != stack
    requires low != disc && low != next && low != stack
    requires Holds(s, disc[..], low[..], parent[..], next[..], s.cut, stack[..count], timer)
    modifies disc, low, parent, next, stack
    ensures count' <= |g| &&
      Holds(Advance(g, Counting.OpenSet(blocked[..]), s), disc[..], low[..], parent[..], next[..], s.cut, stack[..count'], timer')
  {
    timer', count' := timer, count;
    var current := stack[count - 1];
    var neighbor := g[current][next[current]];
    next[current] := next[current] + 1;
    assert next[..] == Ticked(g, s);
    if !blocked[neighbor] {
      if disc[neighbor] == 0 {
        StackHasRoom(g, s, neighbor);
        parent[neighbor] := current;
        timer' := timer' + 1;
        disc[neighbor] := timer';
        low[neighbor] := disc[neighbor];
        stack[count'] := neighbor;
        count' := count' + 1;
        assert stack[..count'] == s.stack + [neighbor];
      } else if neighbor != parent[current] && disc[neighbor] < low[current] {
        low[current] := disc[neighbor];
      }
    }
  }

  /** Takes the fully scanned vertex off the stack and reports to its parent. */
  method FinishVertex(g: Graph, ghost open: set<nat>, disc: array<nat>, low: array<nat>, parent: array<int>,
                      articulation: array<bool>, stack: array<nat>, count: nat, ghost s: Search)
    requires WellFormed(g) && Sane(g, s) && s.stack != [] && s.next[Current(s)] == |g[Current(s)]|
    requires count <= stack.Length && low != disc && low != stack
    requires Holds(s, disc[..], low[..], parent[..], s.next, articulation[..], stack[..count], s.clock.now)
    modifies low, articulation
    ensures Holds(Advance(g, open, s), disc[..], low[..], parent[..], s.next, articulation[..], stack[..count - 1], s.clock.now)
  {
    var current := stack[count - 1];
    assert current == Current(s);
    var p := parent[current];
    if p >= 0 {
      if low[current] < low[p] {
        low[p] := low[current];
      }
      if parent[p] >= 0 && low[current] >= disc[p] {
        articulation[p] := true;
      }
    }
    assert low[..] == Raised(s.low, p, current);
    assert articulation[..] == Reported(s.cut, s.clock, s.parent, s.low, p, current);
    assert stack[..count - 1] == s.stack[..|s.stack| - 1];
  }

  /** Runs the loop until the stack is empty. */
  method RunSearch(g: Graph, blocked: array<bool>, disc: array<nat>, low: array<nat>, parent: array<int>, stack: array<nat>,
                   next: array<nat>, articulation: array<bool>, ghost s0: Search)
    requires WellFormed(g) && Sane(g, s0) && |g| == blocked.Length == stack.Length == next.Length && 0 < stack.Length
    requires disc != next && disc != stack && next != stack && low != disc && low != next && low != stack
    requires articulation != blocked
    requires Holds(s0, disc[..], low[..], parent[..], next[..], articulation[..], stack[..1], 1)
    modifies disc, low, parent, stack, next, articulation
    ensures articulation[..] == Outcome(g, Counting.OpenSet(blocked[..]), s0).cut
  {
    hide Outcome, Measure, Advance, WellFormed, Sane, Counting.OpenSet;
    var timer: nat, count: nat := 1, 1;
    ghost var open, s := Counting.OpenSet(blocked[..]), s0;
    while count > 0
      invariant count <= |g| && Sane(g, s) && |s.next| == |g|
      invariant Holds(s, disc[..], low[..], parent[..], next[..], articulation[..], stack[..count], timer)
      invariant Outcome(g, open, s) == Outcome(g, open, s0)
      decreases Measure(g, s)
    {
      OutcomeAdvances(g, open, s);
      var current := stack[count - 1];
      assert current == Current(s);
      if next[current] < |g[current]| {
        timer, count := ScanNeighbor(g, blocked, disc, low, parent, next, stack, timer, count, s);
      } else {
        FinishVertex(g, open, disc, low, parent, articulation, stack, count, s);
        count := count - 1;
      }
      s := Advance(g, open, s);
    }
    OutcomeStops(g, open, s);
  }

  /** Runs the search and reports into `articulation`. */
  method SearchChokePoints(g: Graph, start: nat, blocked: array<bool>) returns (articulation: array<bool>)
    requires WellFormed(g) && start < |g| == blocked.Length
    ensures fresh(articulation) && articulation.Length == |g|
    ensures articulation[..] == Reports(g, Counting.OpenSet(blocked[..]), start)
  {
    hide Outcome, WellFormed, Sane, Start, Reports, Counting.OpenSet;
    var n := |g|;
    articulation := new bool[n](_ => false);
    var disc := new nat[n](_ => 0);
    var low := new nat[n](_ => 0);
    var parent := new int[n](_ => -1);
    var stack := new nat[n](_ => 0);
    var next := new nat[n](_ => 0);
    stack[0], disc[start], low[start] := start, 1, 1;
    StartHolds(g, Counting.OpenSet(blocked[..]), start);
    RunSearch(g, blocked, disc, low, parent, stack, next, articulation, Start(n, start));
    assert articulation.Length == |articulation[..]|;
  }

  lemma OutcomeAdvances(g: Graph, open: set<nat>, s: Search)
    requires WellFormed(g) && Sane(g, s) && s.stack != []
    ensures Current(s) < |g| == |s.next| && s.next[Current(s)] <= |g[Current(s)]|
    ensures Sane(g, Advance(g, open, s)) && |Advance(g, open, s).next| == |g|
    ensures Measure(g, Advance(g, open, s)) < Measure(g, s)
    ensures Outcome(g, open, s) == Outcome(g, open, Advance(g, open, s))
  {
    AdvanceShrinks(g, open, s);
  }

  lemma StartHolds(g: Graph, open: set<nat>, root: nat)
    requires WellFormed(g) && root < |g|
    ensures var zero, s := seq(|g|, _ => 0), Start(|g|, root);
            && Sane(g, s)
            && Holds(s, zero[root := 1], zero[root := 1], seq(|g|, _ => -1), zero, seq(|g|, _ => false), [root], 1)
            && Outcome(g, open, s).cut == Reports(g, open, root)
  {}

  lemma OutcomeStops(g: Graph, open: set<nat>, s: Search)
    requires WellFormed(g) && Sane(g, s) && s.stack == []
    ensures Outcome(g, open, s) == s
  {}
}

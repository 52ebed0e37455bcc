/**
 A* on a board: the method runs best-first search with the Manhattan distance to the
 goal as estimate and reads the path off the parent table.
 */
module AStar {
  import opened Graphs
  import opened Grid
  import opened Counting
  import opened Limits
  import opened BestFirst

  /** Distance to the goal, ignoring obstacles. */
  ghost function Estimate(width: nat, cells: nat, goal: Coord): (h: seq<nat>)
    requires width > 0
    ensures |h| == cells && Estimates(width, goal, h)
  {
    seq(cells, v requires 0 <= v < cells => Manhattan(CellCoord(width, v), goal))
  }

  ghost predicate Estimates(width: nat, goal: Coord, h: seq<nat>) {
    width > 0 && forall v :: 0 <= v < |h| ==> h[v] == Manhattan(CellCoord(width, v), goal)
  }

  lemma EstimateOf(width: nat, goal: Coord, h: seq<nat>, v: nat)
    requires Estimates(width, goal, h) && v < |h|
    ensures h[v] == Manhattan(CellCoord(width, v), goal)
  {}

  lemma EstimateConsistent(width: nat, height: nat, goal: Coord)
    requires width > 0 && InGrid(width, height, goal)
    ensures Consistent(GridGraph(width, height), Estimate(width, width * height, goal))
    ensures 0 <= CellIndex(width, goal) < width * height
    ensures Estimate(width, width * height, goal)[CellIndex(width, goal)] == 0
  {
    var g := GridGraph(width, height);
    forall u: nat, v: nat | v < |g| && Edge(g, u, v)
      ensures Estimate(width, |g|, goal)[u] <= Estimate(width, |g|, goal)[v] + 1
    {
      NeighborsAreSteps(width, height, u, v);
    }
    IndexInRange(width, height, goal);
  }

  /** The first n entries of the list are the frontier, each once, and the marks agree. */
  ghost predicate Listed(n: nat, list: seq<nat>, marks: seq<bool>, frontier: set<nat>) {
    && |marks| == n && Distinct(list)
    && (forall i :: 0 <= i < |list| ==> list[i] in frontier)
    && (forall v :: v in frontier ==> v in list)
    && (forall v :: v in frontier ==> v < n)
    && (forall v :: 0 <= v < n ==> (marks[v] <==> v in frontier))
  }

  lemma ListedAdds(n: nat, list: seq<nat>, marks: seq<bool>, frontier: set<nat>, v: nat)
    requires Listed(n, list, marks, frontier) && v < n && v !in frontier
    ensures |list| < n && Listed(n, list + [v], marks[v := true], frontier + {v})
  {
    assert v !in list;
    DistinctBound(list, n);
  }

  /** The list with its last entry in place of entry i. */
  function SwapRemoved(list: seq<nat>, i: nat): seq<nat>
    requires i < |list|
  {
    list[i := list[|list| - 1]][..|list| - 1]
  }

  lemma ListedDrops(n: nat, list: seq<nat>, marks: seq<bool>, frontier: set<nat>, i: nat)
    requires Listed(n, list, marks, frontier) && i < |list|
    ensures list[i] < n && Listed(n, SwapRemoved(list, i), marks[list[i] := false], frontier - {list[i]})
  {
    var rest := SwapRemoved(list, i);
    var last := list[|list| - 1];
    forall v | v in frontier - {list[i]} ensures v in rest {
      var j :| 0 <= j < |list| && list[j] == v;
      if j == |list| - 1 {
        assert rest[i] == v;
      } else {
        assert rest[j] == v;
      }
    }
  }

  /** Whether a is preferred to b: smaller total, then larger score. */
  predicate Better(score: seq<int>, total: seq<int>, a: nat, b: nat)
    requires a < |score| && b < |score| && a < |total| && b < |total|
  {
    total[a] < total[b] || (total[a] == total[b] && score[a] > score[b])
  }

  method SelectBest(list: array<nat>, count: nat, score: array<int>, total: array<int>) returns (best: nat)
    requires 0 < count <= list.Length && score.Length == total.Length
    requires forall i :: 0 <= i < count ==> list[i] < total.Length
    ensures best < count
    ensures forall i :: 0 <= i < count ==> !Better(score[..], total[..], list[i], list[best])
  {
    best := 0;
    var index := list[0];
    for i := 1 to count
      invariant 0 <= best < i && index == list[best]
      invariant forall j :: 0 <= j < i ==> !Better(score[..], total[..], list[j], list[best])
    {
      var other := list[i];
      if total[other] < total[index] || (total[other] == total[index] && score[other] > score[index]) {
        best := i;
        index := other;
      }
    }
  }

  /** The totals of scored vertices are their scores plus the estimates. */
  ghost predicate Totals(h: seq<nat>, score: seq<int>, total: seq<int>) {
    && |total| == |score| == |h|
    && forall v :: 0 <= v < |score| && score[v] < INT_MAX ==> total[v] == score[v] + h[v]
  }

  lemma BestIsMinimal(g: Graph, open: set<nat>, start: nat, h: seq<nat>, score: seq<int>, parent: seq<int>, total: seq<int>,
                      list: seq<nat>, marks: seq<bool>, frontier: set<nat>, closed: set<nat>, best: nat)
    requires Listed(|g|, list, marks, frontier) && Totals(h, score, total) && best < |list| && |score| == |g|
    requires Split(score, frontier, closed)
    requires forall i :: 0 <= i < |list| ==> list[i] < |score| && !Better(score, total, list[i], list[best])
    ensures Minimal(h, score, frontier, list[best])
  {}

  /** The arrays hold a state of the search. */
  ghost predicate Holds(g: Graph, blocked: seq<bool>, start: nat, h: seq<nat>, score: seq<int>, total: seq<int>,
                        parent: seq<int>, list: seq<nat>, marks: seq<bool>, closed: seq<bool>, frontier: set<nat>,
                        u: nat, k: nat) {
    && |blocked| == |closed| == |g|
    && Listed(|g|, list, marks, frontier) && Totals(h, score, total)
    && BestFirst.Inv(g, OpenSet(blocked), start, h, score, parent, frontier, ClosedSet(closed), u, k)
  }

  /** The list with v, unless it is marked as listed. */
  ghost function Joined(list: seq<nat>, marks: seq<bool>, v: nat): seq<nat>
    requires v < |marks|
  {
    if marks[v] then list else list + [v]
  }

  /** Reaches a neighbour through the current vertex. */
  method SetNode(current: nat, neighbor: nat, estimate: nat, score: array<int>, total: array<int>, parent: array<int>)
    requires current < score.Length && neighbor < score.Length == total.Length == parent.Length
    requires score != total && score != parent && total != parent
    modifies score, total, parent
    ensures score[..] == old(score[..])[neighbor := old(score[current]) + 1]
    ensures total[..] == old(total[..])[neighbor := old(score[current]) + 1 + estimate]
    ensures parent[..] == old(parent[..])[neighbor := current]
  {
    var tentative := score[current] + 1;
    parent[neighbor] := current;
    score[neighbor] := tentative;
    total[neighbor] := tentative + estimate;
  }

  /** Lists a vertex unless it is listed already. */
  method Join(v: nat, list: array<nat>, marks: array<bool>, count: nat) returns (count': nat)
    requires v < marks.Length && count <= list.Length && (!marks[v] ==> count < list.Length)
    modifies list, marks
    ensures count' <= list.Length && list[..count'] == old(Joined(list[..count], marks[..], v))
    ensures marks[..] == old(marks[..])[v := true]
  {
    count' := count;
    if !marks[v] {
      list[count] := v;
      marks[v] := true;
      count' := count + 1;
    }
  }

  /** Looks at one neighbour of the vertex just closed. */
  method RelaxOne(g: Graph, width: nat, goal: Coord, start: nat, current: nat, k: nat, blocked: array<bool>,
                  closed: array<bool>, score: array<int>, total: array<int>, parent: array<int>, list: array<nat>,
                  marks: array<bool>, count0: nat, ghost frontier0: set<nat>, ghost h: seq<nat>)
    returns (count: nat, ghost frontier: set<nat>)
    requires width > 0 && Estimates(width, goal, h) && blocked.Length == closed.Length == score.Length == total.Length == parent.Length == |g|
    requires list.Length == marks.Length == |g| && count0 <= |g| && current < |g| && k < |g[current]|
    requires score != total && score != parent && total != parent && marks != blocked && marks != closed
    requires BestFirst.Setting(g, OpenSet(blocked[..]), start, h)
    requires Holds(g, blocked[..], start, h, score[..], total[..], parent[..], list[..count0],
                   marks[..], closed[..], frontier0, current, k)
    requires Expanding(g, h, score[..], frontier0, ClosedSet(closed[..]), current)
    modifies score, total, parent, list, marks
    ensures count <= |g|
    ensures Holds(g, blocked[..], start, h, score[..], total[..], parent[..], list[..count],
                  marks[..], closed[..], frontier, current, k + 1)
    ensures Expanding(g, h, score[..], frontier, ClosedSet(closed[..]), current)
  {
    hide Holds, Expanding, BestFirst.Setting, BestFirst.Inv, Estimates, Manhattan, OpenSet, ClosedSet, Better, Joined, CellCoord;
    count, frontier := count0, frontier0;
    NeighborInRange(g, OpenSet(blocked[..]), start, h, current, k);
    var neighbor := g[current][k];
    var estimate := Manhattan(CellCoord(width, neighbor), goal);
    EstimateOf(width, goal, h, neighbor);
    ghost var walls, done, g0 := blocked[..], closed[..], score[..];
    if blocked[neighbor] || closed[neighbor] || score[current] + 1 >= score[neighbor] {
      RelaxPasses(g, walls, start, h, g0, total[..], parent[..], list[..count], marks[..], done, frontier, current, k);
    } else {
      RelaxImproves(g, walls, start, h, g0, total[..], parent[..], list[..count], marks[..], done, frontier, current, k);
      ghost var total' := total[..][neighbor := g0[current] + 1 + h[neighbor]];
      SetNode(current, neighbor, estimate, score, total, parent);
      assert total[..] == total';
      count := Join(neighbor, list, marks, count);
      frontier := frontier + {neighbor};
      assert blocked[..] == walls && closed[..] == done;
    }
  }

  lemma NeighborInRange(g: Graph, open: set<nat>, start: nat, h: seq<nat>, u: nat, k: nat)
    requires BestFirst.Setting(g, open, start, h) && u < |g| && k < |g[u]|
    ensures g[u][k] < |g| == |h|
  {}

  /** Looks at the neighbours of the vertex just closed. */
  method Relax(g: Graph, width: nat, goal: Coord, start: nat, current: nat, blocked: array<bool>, closed: array<bool>,
               score: array<int>, total: array<int>, parent: array<int>, list: array<nat>, marks: array<bool>, count0: nat,
               ghost frontier0: set<nat>, ghost h: seq<nat>)
    returns (count: nat, ghost frontier: set<nat>)
    requires width > 0 && Estimates(width, goal, h) && blocked.Length == closed.Length == score.Length == total.Length == parent.Length == |g|
    requires list.Length == marks.Length == |g| && count0 <= |g| && current < |g|
    requires score != total && score != parent && total != parent && marks != blocked && marks != closed
    requires BestFirst.Setting(g, OpenSet(blocked[..]), start, h)
    requires Holds(g, blocked[..], start, h, score[..], total[..], parent[..], list[..count0],
                   marks[..], closed[..], frontier0, current, 0)
    requires Expanding(g, h, score[..], frontier0, ClosedSet(closed[..]), current)
    modifies score, total, parent, list, marks
    ensures count <= |g|
    ensures Holds(g, blocked[..], start, h, score[..], total[..], parent[..], list[..count],
                  marks[..], closed[..], frontier, |g|, 0)
  {
    hide Holds, Expanding, BestFirst.Setting, BestFirst.Inv, Estimates, OpenSet, ClosedSet;
    count, frontier := count0, frontier0;
    for k := 0 to |g[current]|
      invariant count <= |g|
      invariant Holds(g, blocked[..], start, h, score[..], total[..], parent[..], list[..count], marks[..], closed[..],
                      frontier, current, k)
      invariant Expanding(g, h, score[..], frontier, ClosedSet(closed[..]), current)
    {
      count, frontier := RelaxOne(g, width, goal, start, current, k, blocked, closed, score, total, parent, list, marks, count,
                                  frontier, h);
    }
    HoldsExpanded(g, blocked[..], start, h, score[..], total[..], parent[..], list[..count], marks[..], closed[..],
                  frontier, current);
  }

  lemma HoldsExpanded(g: Graph, blocked: seq<bool>, start: nat, h: seq<nat>, score: seq<int>, total: seq<int>,
                      parent: seq<int>, list: seq<nat>, marks: seq<bool>, closed: seq<bool>, frontier: set<nat>, u: nat)
    requires u < |g| && Holds(g, blocked, start, h, score, total, parent, list, marks, closed, frontier, u, |g[u]|)
    ensures Holds(g, blocked, start, h, score, total, parent, list, marks, closed, frontier, |g|, 0)
  {
    Expanded(g, OpenSet(blocked), start, h, score, parent, frontier, ClosedSet(closed), u);
  }

  lemma SettingFacts(g: Graph, open: set<nat>, start: nat, h: seq<nat>, score: seq<int>, parent: seq<int>,
                     frontier: set<nat>, closed: set<nat>, u: nat, k: nat)
    requires BestFirst.Setting(g, open, start, h) && BestFirst.Inv(g, open, start, h, score, parent, frontier, closed, u, k)
    requires Expanding(g, h, score, frontier, closed, u) && k < |g[u]|
    ensures |score| == |parent| == |g| && g[u][k] < |g| && |h| == |g| && 0 <= score[u]
    ensures score[u] + 1 >= score[g[u][k]] ==> Scored(score, g[u][k])
    ensures score[u] + 1 < score[g[u][k]] ==> score[u] + 1 < INT_MAX
    ensures g[u][k] in frontier <==> Scored(score, g[u][k]) && g[u][k] !in closed
  {
    var v := g[u][k];
    assert WellFormed(g);
    ScoreBelowSize(g, open, start, score, parent, closed, u);
  }

  lemma RelaxPasses(g: Graph, blocked: seq<bool>, start: nat, h: seq<nat>, score: seq<int>, total: seq<int>,
                    parent: seq<int>, list: seq<nat>, marks: seq<bool>, closed: seq<bool>, frontier: set<nat>, u: nat, k: nat)
    requires BestFirst.Setting(g, OpenSet(blocked), start, h)
    requires Holds(g, blocked, start, h, score, total, parent, list, marks, closed, frontier, u, k)
    requires Expanding(g, h, score, frontier, ClosedSet(closed), u) && k < |g[u]|
    requires g[u][k] < |g| == |score| && (blocked[g[u][k]] || closed[g[u][k]] || score[u] + 1 >= score[g[u][k]])
    ensures Holds(g, blocked, start, h, score, total, parent, list, marks, closed, frontier, u, k + 1)
  {
    hide BestFirst.Setting, BestFirst.Inv, Listed, Totals;
    SettingFacts(g, OpenSet(blocked), start, h, score, parent, frontier, ClosedSet(closed), u, k);
    BestFirst.PassOver(g, OpenSet(blocked), start, h, score, parent, frontier, ClosedSet(closed), u, k);
  }

  lemma RelaxImproves(g: Graph, blocked: seq<bool>, start: nat, h: seq<nat>, score: seq<int>, total: seq<int>,
                      parent: seq<int>, list: seq<nat>, marks: seq<bool>, closed: seq<bool>, frontier: set<nat>,
                      u: nat, k: nat)
    requires BestFirst.Setting(g, OpenSet(blocked), start, h)
    requires Holds(g, blocked, start, h, score, total, parent, list, marks, closed, frontier, u, k)
    requires Expanding(g, h, score, frontier, ClosedSet(closed), u) && k < |g[u]|
    requires g[u][k] < |g| == |score| && !blocked[g[u][k]] && !closed[g[u][k]] && score[u] + 1 < score[g[u][k]]
    ensures |parent| == |total| == |marks| == |h| == |g|
    ensures var v := g[u][k];
            var score', total' := score[v := score[u] + 1], total[v := score[u] + 1 + h[v]];
            && (!marks[v] ==> |list| < |g|)
            && Holds(g, blocked, start, h, score', total', parent[v := u], Joined(list, marks, v), marks[v := true],
                     closed, frontier + {v}, u, k + 1)
            && Expanding(g, h, score', frontier + {v}, ClosedSet(closed), u)
  {
    var v := g[u][k];
    assert |total| == |g| && |marks| == |g| && (marks[v] <==> v in frontier);
    assert Totals(h, score[v := score[u] + 1], total[v := score[u] + 1 + h[v]]);
    hide BestFirst.Setting, BestFirst.Inv, Totals;
    SettingFacts(g, OpenSet(blocked), start, h, score, parent, frontier, ClosedSet(closed), u, k);
    BestFirst.Improve(g, OpenSet(blocked), start, h, score, parent, frontier, ClosedSet(closed), u, k);
    if marks[v] {
      assert frontier + {v} == frontier && marks[v := true] == marks;
    } else {
      ListedAdds(|g|, list, marks, frontier, v);
    }
    hide Listed;
  }

  /** Closing the selected vertex. */
  lemma HoldsCloses(g: Graph, blocked: seq<bool>, start: nat, h: seq<nat>, score: seq<int>, total: seq<int>,
                    parent: seq<int>, list: seq<nat>, marks: seq<bool>, closed: seq<bool>, frontier: set<nat>, best: nat)
    requires BestFirst.Setting(g, OpenSet(blocked), start, h)
    requires Holds(g, blocked, start, h, score, total, parent, list, marks, closed, frontier, |g|, 0)
    requires best < |list| && |score| == |total| == |g|
    requires forall i :: 0 <= i < |list| ==> list[i] < |g| && !Better(score, total, list[i], list[best])
    ensures var u := list[best];
            && Minimal(h, score, frontier, u) && |marks| == |closed| == |g|
            && Holds(g, blocked, start, h, score, total, parent, SwapRemoved(list, best), marks[u := false],
                     closed[u := true], frontier - {u}, u, 0)
            && Expanding(g, h, score, frontier - {u}, ClosedSet(closed[u := true]), u)
            && u !in ClosedSet(closed)
  {
    var u := list[best];
    BestIsMinimal(g, OpenSet(blocked), start, h, score, parent, total, list, marks, frontier, ClosedSet(closed), best);
    ListedDrops(|g|, list, marks, frontier, best);
    assert |closed| == |g|;
    assert ClosedSet(closed[u := true]) == ClosedSet(closed) + {u};
    hide BestFirst.Setting, Listed, Totals, Minimal, Expanding, SwapRemoved, ClosedSet;
    Close(g, OpenSet(blocked), start, h, score, parent, frontier, ClosedSet(closed), u);
    hide BestFirst.Inv;
  }

  lemma HoldsStarts(g: Graph, blocked: seq<bool>, start: nat, h: seq<nat>, score: seq<int>, total: seq<int>,
                    parent: seq<int>, marks: seq<bool>, closed: seq<bool>)
    requires BestFirst.Setting(g, OpenSet(blocked), start, h) && |blocked| == |g|
    requires score == seq(|g|, _ => INT_MAX)[start := 0] && total == seq(|g|, _ => INT_MAX)[start := h[start]]
    requires parent == seq(|g|, _ => -1) && closed == seq(|g|, _ => false)
    requires marks == seq(|g|, _ => false)[start := true]
    ensures ClosedSet(closed) == {}
    ensures Holds(g, blocked, start, h, score, total, parent, [start], marks, closed, {start}, |g|, 0)
  {
    Starts(g, OpenSet(blocked), start, h);
    assert ClosedSet(closed) == {};
  }

  lemma ListInRange(n: nat, list: seq<nat>, marks: seq<bool>, frontier: set<nat>)
    requires Listed(n, list, marks, frontier)
    ensures forall i :: 0 <= i < |list| ==> list[i] < n
    ensures frontier == {} <==> list == []
  {
    if list != [] {
      assert list[0] in frontier;
    }
  }

  lemma HoldsShape(g: Graph, blocked: seq<bool>, start: nat, h: seq<nat>, score: seq<int>, total: seq<int>,
                   parent: seq<int>, list: seq<nat>, marks: seq<bool>, closed: seq<bool>, frontier: set<nat>, u: nat, k: nat)
    requires Holds(g, blocked, start, h, score, total, parent, list, marks, closed, frontier, u, k)
    ensures forall i :: 0 <= i < |list| ==> list[i] < |g|
    ensures frontier == {} <==> list == []
    ensures BestFirst.Inv(g, OpenSet(blocked), start, h, score, parent, frontier, ClosedSet(closed), u, k)
  {
    ListInRange(|g|, list, marks, frontier);
  }

  /** The list p of vertices is the chain of parents that ends in `last`. */
  ghost predicate IsChain(parent: seq<int>, p: seq<nat>, last: nat) {
    && |p| > 0 && p[|p| - 1] == last && (forall i :: 0 <= i < |p| ==> p[i] < |parent|)
    && parent[p[0]] == -1 && forall i {:trigger p[i]} :: 0 < i < |p| ==> parent[p[i]] == p[i - 1]
  }

  ghost function Coords(width: nat, p: seq<nat>): (r: seq<Coord>)
    requires width > 0
    ensures |r| == |p| && forall i :: 0 <= i < |p| ==> r[i] == CellCoord(width, p[i])
  {
    seq(|p|, i requires 0 <= i < |p| => CellCoord(width, p[i]))
  }

  method CountChain(parent: array<int>, last: nat, ghost p: seq<nat>) returns (count: nat)
    requires IsChain(parent[..], p, last)
    ensures count == |p|
  {
    var index := last;
    count := 1;
    while parent[index] >= 0
      invariant 1 <= count <= |p| && index == p[|p| - count] && index < parent.Length
      decreases |p| - count
    {
      index := parent[index];
      count := count + 1;
    }
  }

  /** Counts the parents, then fills the path from its end. */
  method Reconstruct(width: nat, parent: array<int>, last: nat, ghost p: seq<nat>) returns (path: array<Coord>)
    requires width > 0 && IsChain(parent[..], p, last)
    ensures fresh(path) && path[..] == Coords(width, p)
  {
    hide CellCoord, Coords;
    var count := CountChain(parent, last, p);
    path := new Coord[count](_ => Coord(0, 0));
    var cell: int := last;
    for i := count downto 0
      invariant i > 0 ==> cell == p[i - 1]
      invariant forall j :: i <= j < |p| ==> path[j] == CellCoord(width, p[j])
    {
      path[i] := CellCoord(width, cell);
      cell := parent[cell];
    }
  }

  /** The result of the search: a shortest walk in coordinates, or nothing when there is none. */
  ghost predicate Answers(g: Graph, open: set<nat>, width: nat, start: nat, goal: nat, path: seq<Coord>) {
    width > 0 &&
    if path == [] then !Reaches(g, open, start, goal)
    else exists p :: IsWalkBetween(g, open, start, goal, p) && path == Coords(width, p) && NoShorter(g, open, start, goal, |p|)
  }

  ghost predicate NoShorter(g: Graph, open: set<nat>, start: nat, goal: nat, n: nat) {
    forall q :: IsWalkBetween(g, open, start, goal, q) ==> n <= |q|
  }

  /** What the arrays hold when the goal is selected, and the chain of parents that leads to it. */
  lemma GoalSelected(g: Graph, blocked: seq<bool>, start: nat, h: seq<nat>, score: seq<int>, total: seq<int>,
                     parent: seq<int>, list: seq<nat>, marks: seq<bool>, closed: seq<bool>, frontier: set<nat>, goal: nat)
    returns (p: seq<nat>)
    requires BestFirst.Setting(g, OpenSet(blocked), start, h) && goal < |h| && h[goal] == 0
    requires Holds(g, blocked, start, h, score, total, parent, list, marks, closed, frontier, |g|, 0)
    requires Minimal(h, score, frontier, goal)
    ensures IsChain(parent, p, goal) && IsWalkBetween(g, OpenSet(blocked), start, goal, p)
    ensures NoShorter(g, OpenSet(blocked), start, goal, |p|)
  {
    var open := OpenSet(blocked);
    p := TreePath(g, open, start, score, parent, ClosedSet(closed), goal);
    forall q | IsWalkBetween(g, open, start, goal, q) ensures |p| <= |q| {
      GoalIsNearest(g, open, start, h, score, parent, frontier, ClosedSet(closed), goal, q);
    }
  }

  lemma NothingLeft(g: Graph, blocked: seq<bool>, start: nat, h: seq<nat>, score: seq<int>, total: seq<int>,
                    parent: seq<int>, marks: seq<bool>, closed: seq<bool>, frontier: set<nat>, goal: nat)
    requires BestFirst.Setting(g, OpenSet(blocked), start, h)
    requires Holds(g, blocked, start, h, score, total, parent, [], marks, closed, frontier, |g|, 0)
    requires goal !in ClosedSet(closed)
    ensures !Reaches(g, OpenSet(blocked), start, goal)
  {
    ListInRange(|g|, [], marks, frontier);
    Exhausted(g, OpenSet(blocked), start, h, score, parent, ClosedSet(closed), goal);
  }

  /** Takes entry i out of the list. */
  method TakeOut(list: array<nat>, marks: array<bool>, count: nat, i: nat)
    requires i < count <= list.Length && list[i] < marks.Length
    modifies list, marks
    ensures list[..count - 1] == SwapRemoved(old(list[..count]), i)
    ensures marks[..] == old(marks[..])[old(list[i]) := false]
  {
    var current := list[i];
    list[i] := list[count - 1];
    marks[current] := false;
  }

  lemma ClosedGrows(closed: seq<bool>, u: nat)
    requires u < |closed| && u !in ClosedSet(closed)
    ensures |ClosedSet(closed)| < |closed|
    ensures ClosedSet(closed[u := true]) == ClosedSet(closed) + {u}
  {
    assert ClosedSet(closed[u := true]) == ClosedSet(closed) + {u};
    SubsetCount(ClosedSet(closed) + {u}, Below(|closed|));
  }

  /** Selects, closes and expands vertices until the goal is selected or nothing is left. */
  method Search(g: Graph, width: nat, start: nat, goal: nat, target: Coord, blocked: array<bool>, score: array<int>,
                total: array<int>, parent: array<int>, list: array<nat>, marks: array<bool>, closed: array<bool>,
                ghost h: seq<nat>)
    returns (path: array<Coord>)
    requires width > 0 && Estimates(width, target, h) && goal < |h| && h[goal] == 0
    requires blocked.Length == closed.Length == score.Length == total.Length == parent.Length == list.Length == |g|
    requires marks.Length == |g| && marks != blocked && marks != closed && closed != blocked
    requires score != total && score != parent && total != parent
    requires BestFirst.Setting(g, OpenSet(blocked[..]), start, h)
    requires |g| > 0 && ClosedSet(closed[..]) == {}
    requires Holds(g, blocked[..], start, h, score[..], total[..], parent[..], list[..1], marks[..], closed[..], {start}, |g|, 0)
    modifies score, total, parent, list, marks, closed
    ensures fresh(path) && Answers(g, OpenSet(blocked[..]), width, start, goal, path[..])
  {
    hide Holds, Expanding, BestFirst.Setting, BestFirst.Inv, Estimates, Manhattan, OpenSet, ClosedSet, Better, Minimal, SwapRemoved,
      CellCoord, Answers, NoShorter, IsChain, IsWalkBetween;
    ghost var walls := blocked[..];
    ghost var frontier := {start};
    var count: nat := 1;
    while count > 0
      invariant count <= |g| && blocked[..] == walls && goal !in ClosedSet(closed[..])
      invariant Holds(g, walls, start, h, score[..], total[..], parent[..], list[..count], marks[..], closed[..],
                      frontier, |g|, 0)
      decreases |g| - |ClosedSet(closed[..])|
    {
      ghost var listed, done := list[..count], closed[..];
      HoldsShape(g, walls, start, h, score[..], total[..], parent[..], listed, marks[..], done, frontier, |g|, 0);
      var best := SelectBest(list, count, score, total);
      HoldsCloses(g, walls, start, h, score[..], total[..], parent[..], listed, marks[..], done, frontier, best);
      var current := list[best];
      if current == goal {
        ghost var p := GoalSelected(g, walls, start, h, score[..], total[..], parent[..], listed, marks[..], done,
                                    frontier, goal);
        path := Reconstruct(width, parent, goal, p);
        Found(g, OpenSet(walls), width, start, goal, p, path[..]);
        return;
      }
      ClosedGrows(done, current);
      TakeOut(list, marks, count, best);
      closed[current] := true;
      assert closed[..] == done[current := true];
      ghost var rest := frontier - {current};
      count, frontier := Relax(g, width, target, start, current, blocked, closed, score, total, parent, list, marks, count - 1, rest, h);
    }
    assert list[..count] == [];
    NothingLeft(g, walls, start, h, score[..], total[..], parent[..], marks[..], closed[..], frontier, goal);
    path := new Coord[0];
    assert path[..] == [];
    Missing(g, OpenSet(walls), width, start, goal);
  }

  lemma Found(g: Graph, open: set<nat>, width: nat, start: nat, goal: nat, p: seq<nat>, path: seq<Coord>)
    requires width > 0 && IsWalkBetween(g, open, start, goal, p) && NoShorter(g, open, start, goal, |p|)
    requires path == Coords(width, p)
    ensures Answers(g, open, width, start, goal, path)
  {}

  lemma Missing(g: Graph, open: set<nat>, width: nat, start: nat, goal: nat)
    requires width > 0 && !Reaches(g, open, start, goal)
    ensures Answers(g, open, width, start, goal, [])
  {}
}

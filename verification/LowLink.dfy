/**
 The low-link depth-first search as a state machine on values: its steps and the
 invariant that each of them keeps.
 */
module LowLink {
  import opened Graphs

  /** Discovery and finishing times; zero means "not yet". */
  datatype Clock = Clock(disc: seq<nat>, fin: seq<nat>, now: nat)

  /** Times, tree parents (-1 at the root), low-links, scan positions, reported flags and the stack. */
  datatype Search = Search(clock: Clock, parent: seq<int>, low: seq<nat>, next: seq<nat>, cut: seq<bool>, stack: seq<nat>)

  ghost predicate Found(c: Clock, v: nat) {
    v < |c.disc| && c.disc[v] > 0
  }

  ghost predicate Finished(c: Clock, v: nat) {
    v < |c.fin| && c.fin[v] > 0
  }

  /** The time up to which discoveries belong to v's subtree. */
  ghost function End(c: Clock, v: nat): nat {
    if v < |c.fin| && c.fin[v] > 0 then c.fin[v] else c.now
  }

  /** Vertex v was discovered while u was on the stack, so it lies in u's subtree. */
  ghost predicate Below(c: Clock, u: nat, v: nat) {
    Found(c, u) && Found(c, v) && c.disc[u] <= c.disc[v] <= End(c, u)
  }

  ghost predicate Times(c: Clock) {
    && |c.fin| == |c.disc|
    && (forall v: nat :: Found(c, v) ==> c.disc[v] <= c.now)
    && (forall v: nat :: Finished(c, v) ==> 0 < c.disc[v] <= c.fin[v] <= c.now)
    && (forall u: nat, v: nat :: Found(c, u) && Found(c, v) && c.disc[u] == c.disc[v] ==> u == v)
  }

  /** The stack is the tree path to the current vertex and holds every unfinished vertex. */
  ghost predicate Path(c: Clock, parent: seq<int>, stack: seq<nat>) {
    && |parent| == |c.disc|
    && (forall i :: 0 <= i < |stack| ==> Found(c, stack[i]) && !Finished(c, stack[i]))
    && (forall i, j :: 0 <= i < j < |stack| ==> c.disc[stack[i]] < c.disc[stack[j]])
    && (forall i :: 0 < i < |stack| ==> parent[stack[i]] == stack[i - 1])
    && (forall v: nat :: Found(c, v) && !Finished(c, v) ==> v in stack)
  }

  ghost predicate ChildOf(g: Graph, c: Clock, p: int, v: nat) {
    0 <= p < |g| && Found(c, p) && Edge(g, p, v) && Found(c, v) && c.disc[p] < c.disc[v] && End(c, v) <= End(c, p)
  }

  /** Every vertex found hangs below its parent, and only the root has none. */
  ghost predicate Tree(g: Graph, open: set<nat>, root: nat, c: Clock, parent: seq<int>) {
    && |parent| == |c.disc| == |g|
    && Found(c, root) && parent[root] == -1 && c.disc[root] == 1
    && (forall v: nat :: Found(c, v) ==> (v == root || v in open) && Reaches(g, open, root, v))
    && (forall v: nat :: Found(c, v) && v != root ==> ChildOf(g, c, parent[v], v))
  }

  /** Subtrees are closed towards their root, nested, and finished as a whole. */
  ghost predicate Nested(root: nat, c: Clock, parent: seq<int>) {
    && |parent| == |c.disc|
    && (forall u: nat, v: nat :: Below(c, u, v) && v != u ==> v != root && parent[v] >= 0 && Below(c, u, parent[v]))
    && (forall u: nat, v: nat :: Below(c, u, v) ==> End(c, v) <= End(c, u))
    && (forall u: nat, v: nat :: Below(c, u, v) && Finished(c, u) ==> Finished(c, v))
  }

  /** The k-th neighbour of u exists and is open. */
  ghost predicate Open(g: Graph, open: set<nat>, u: nat, k: int) {
    u < |g| && 0 <= k < |g[u]| && g[u][k] in open
  }

  /** Scanned neighbours are found; a finished vertex has scanned all, and found them before it finished. */
  ghost predicate Scanned(g: Graph, open: set<nat>, c: Clock, next: seq<nat>) {
    && |next| == |c.disc| == |g|
    && (forall u: nat :: u < |g| ==> next[u] <= |g[u]|)
    && (forall u: nat :: u < |g| && !Found(c, u) ==> next[u] == 0)
    && (forall u: nat, k :: Open(g, open, u, k) && k < next[u] ==> Found(c, g[u][k]))
    && (forall u: nat :: u < |g| && Finished(c, u) ==> next[u] == |g[u]|)
    && (forall u: nat, k :: Open(g, open, u, k) && Finished(c, u) ==> Found(c, g[u][k]) && c.disc[g[u][k]] <= c.fin[u])
  }

  /** Low-links are below the own time, the times of scanned non-parent neighbours, and finished children's low-links. */
  ghost predicate LowBound(g: Graph, open: set<nat>, c: Clock, parent: seq<int>, next: seq<nat>, low: seq<nat>) {
    && |next| == |parent| == |low| == |c.disc| == |g|
    && (forall u: nat :: Found(c, u) ==> 0 < low[u] <= c.disc[u])
    && (forall u: nat, k :: Open(g, open, u, k) && k < next[u] && g[u][k] != parent[u] && Found(c, g[u][k]) ==>
         low[u] <= c.disc[g[u][k]])
    && (forall v: nat :: v < |g| && Finished(c, v) && 0 <= parent[v] < |g| ==> low[parent[v]] <= low[v])
  }

  /** Vertex w is a found neighbour of a vertex x in u's subtree. */
  ghost predicate Touches(g: Graph, open: set<nat>, c: Clock, u: nat, x: nat, w: nat) {
    Below(c, u, x) && Edge(g, x, w) && w in open && Found(c, w)
  }

  /** A low-link is the own time or the time of a neighbour of the subtree. */
  ghost predicate LowAttained(g: Graph, open: set<nat>, c: Clock, low: seq<nat>) {
    && |low| == |c.disc|
    && forall u: nat :: Found(c, u) && low[u] != c.disc[u] ==>
         exists x: nat, w: nat :: Touches(g, open, c, u, x, w) && c.disc[w] == low[u]
  }

  /** Child v of p cannot climb above p. */
  ghost predicate Hanging(c: Clock, parent: seq<int>, low: seq<nat>, p: nat, v: nat) {
    && p < |c.disc| && v < |parent| && v < |low|
    && Finished(c, v) && parent[v] == p && low[v] >= c.disc[p]
  }

  ghost predicate Flags(root: nat, c: Clock, parent: seq<int>, low: seq<nat>, cut: seq<bool>) {
    && |cut| == |c.disc|
    && forall p: nat :: p < |cut| ==> (cut[p] <==> p != root && exists v :: Hanging(c, parent, low, p, v))
  }

  ghost predicate Inv(g: Graph, open: set<nat>, root: nat, s: Search) {
    && Times(s.clock) && Path(s.clock, s.parent, s.stack) && Tree(g, open, root, s.clock, s.parent)
    && Nested(root, s.clock, s.parent) && Scanned(g, open, s.clock, s.next)
    && LowBound(g, open, s.clock, s.parent, s.next, s.low) && LowAttained(g, open, s.clock, s.low)
    && Flags(root, s.clock, s.parent, s.low, s.cut)
  }

  ghost predicate Setting(g: Graph, open: set<nat>, root: nat) {
    WellFormed(g) && Symmetric(g) && root < |g| && forall c :: c in open ==> c < |g|
  }

  function Start(n: nat, root: nat): Search
    requires root < n
  {
    var zero := seq(n, _ => 0);
    Search(Clock(zero[root := 1], zero, 1), seq(n, _ => -1), zero[root := 1], zero, seq(n, _ => false), [root])
  }

  lemma StartKeeps(g: Graph, open: set<nat>, root: nat)
    requires Setting(g, open, root)
    ensures Inv(g, open, root, Start(|g|, root))
  {
    ReachesSelf(g, open, root);
    var s := Start(|g|, root);
    assert forall v: nat :: Found(s.clock, v) <==> v == root;
    assert forall v: nat :: !Finished(s.clock, v);
  }

  ghost predicate Scanning(g: Graph, s: Search) {
    && s.stack != [] && |s.next| == |g| && s.stack[|s.stack| - 1] < |g|
    && s.next[s.stack[|s.stack| - 1]] < |g[s.stack[|s.stack| - 1]]|
  }

  ghost function Current(s: Search): nat
    requires s.stack != []
  {
    s.stack[|s.stack| - 1]
  }

  /** The neighbour whose turn it is. */
  ghost function Turn(g: Graph, s: Search): nat
    requires Scanning(g, s)
  {
    g[Current(s)][s.next[Current(s)]]
  }

  ghost function Ticked(g: Graph, s: Search): seq<nat>
    requires Scanning(g, s)
  {
    s.next[Current(s) := s.next[Current(s)] + 1]
  }

  /** A blocked neighbour is passed over. */
  lemma SkipKeeps(g: Graph, open: set<nat>, root: nat, s: Search)
    requires Setting(g, open, root) && Inv(g, open, root, s) && Scanning(g, s) && Turn(g, s) !in open
    ensures Inv(g, open, root, s.(next := Ticked(g, s)))
  {
    hide Times, Tree, Nested, LowAttained, Flags, Finished;
  }

  /** What the invariant says about sizes, the current vertex, and children of a vertex not found. */
  lemma CurrentFacts(g: Graph, open: set<nat>, root: nat, s: Search, v: nat)
    requires Setting(g, open, root) && Inv(g, open, root, s) && s.stack != [] && v < |g|
    ensures |s.clock.disc| == |s.clock.fin| == |s.parent| == |s.low| == |s.next| == |s.cut| == |g|
    ensures Current(s) < |g| && Found(s.clock, Current(s)) && !Finished(s.clock, Current(s))
    ensures !Found(s.clock, v) ==> NoChildren(s.clock, s.parent, v)
  {
    if !Found(s.clock, v) {
      forall c: nat | Finished(s.clock, c) && c < |s.parent| ensures s.parent[c] != v {
        assert c == root || ChildOf(g, s.clock, s.parent[c], c);
      }
    }
  }

  ghost predicate NoChildren(c: Clock, parent: seq<int>, v: nat) {
    forall x: nat :: Finished(c, x) && x < |parent| ==> parent[x] != v
  }

  /** The low-links after seeing found neighbour v of u. */
  function Lowered(low: seq<nat>, c: Clock, parent: seq<int>, u: nat, v: nat): seq<nat>
    requires u < |low| && u < |parent| && v < |c.disc|
  {
    if v != parent[u] && c.disc[v] < low[u] then low[u := c.disc[v]] else low
  }

  /** An open neighbour found before may lower the low-link. */
  lemma BackEdgeKeeps(g: Graph, open: set<nat>, root: nat, s: Search)
    requires Setting(g, open, root) && Inv(g, open, root, s) && Scanning(g, s)
    requires Turn(g, s) in open && Found(s.clock, Turn(g, s))
    ensures Inv(g, open, root, s.(next := Ticked(g, s), low := Lowered(s.low, s.clock, s.parent, Current(s), Turn(g, s))))
  {
    hide Times, Path, Tree, Nested, Scanned, LowBound, LowAttained, Flags, Lowered;
    var u, v := Current(s), Turn(g, s);
    CurrentFacts(g, open, root, s, v);
    BackEdgeScanned(g, open, s, u, v);
    BackEdgeBound(g, open, s, u, v);
    BackEdgeAttained(g, open, s, u, v);
    BackEdgeFlags(root, s, u, v);
  }

  lemma BackEdgeScanned(g: Graph, open: set<nat>, s: Search, u: nat, v: nat)
    requires Scanning(g, s) && u == Current(s) && v == Turn(g, s) && Scanned(g, open, s.clock, s.next)
    requires v in open ==> Found(s.clock, v)
    requires Found(s.clock, u) && !Finished(s.clock, u)
    ensures Scanned(g, open, s.clock, Ticked(g, s))
  {}

  lemma BackEdgeBound(g: Graph, open: set<nat>, s: Search, u: nat, v: nat)
    requires Scanning(g, s) && u == Current(s) && v == Turn(g, s) && LowBound(g, open, s.clock, s.parent, s.next, s.low)
    requires Found(s.clock, v) && !Finished(s.clock, u)
    ensures LowBound(g, open, s.clock, s.parent, Ticked(g, s), Lowered(s.low, s.clock, s.parent, u, v))
  {}

  lemma BackEdgeAttained(g: Graph, open: set<nat>, s: Search, u: nat, v: nat)
    requires Scanning(g, s) && u == Current(s) && v == Turn(g, s) && LowAttained(g, open, s.clock, s.low)
    requires |s.parent| == |s.low| && Found(s.clock, u) && v in open && Found(s.clock, v) && Times(s.clock)
    ensures LowAttained(g, open, s.clock, Lowered(s.low, s.clock, s.parent, u, v))
  {
    assert Edge(g, u, v) && Below(s.clock, u, u);
    assert Touches(g, open, s.clock, u, u, v);
  }

  lemma BackEdgeFlags(root: nat, s: Search, u: nat, v: nat)
    requires Flags(root, s.clock, s.parent, s.low, s.cut) && !Finished(s.clock, u)
    requires |s.parent| == |s.low| && u < |s.low| && v < |s.clock.disc|
    ensures Flags(root, s.clock, s.parent, Lowered(s.low, s.clock, s.parent, u, v), s.cut)
  {
    var low := Lowered(s.low, s.clock, s.parent, u, v);
    assert forall p: nat, c: nat :: Hanging(s.clock, s.parent, s.low, p, c) <==> Hanging(s.clock, s.parent, low, p, c);
  }

  /** The clock after discovering v. */
  function Discovered(c: Clock, v: nat): Clock
    requires v < |c.disc|
  {
    Clock(c.disc[v := c.now + 1], c.fin, c.now + 1)
  }

  function AfterDiscovery(g: Graph, s: Search, u: nat, v: nat): Search
    requires u < |s.next| && v < |s.clock.disc| && v < |s.parent| && v < |s.low|
  {
    Search(Discovered(s.clock, v), s.parent[v := u], s.low[v := s.clock.now + 1],
           s.next[u := s.next[u] + 1], s.cut, s.stack + [v])
  }

  lemma DiscoveryTimes(c: Clock, v: nat)
    requires Times(c) && v < |c.disc| && !Found(c, v)
    ensures Times(Discovered(c, v))
    ensures forall x: nat :: Found(Discovered(c, v), x) <==> Found(c, x) || x == v
    ensures forall x: nat :: Finished(Discovered(c, v), x) <==> Finished(c, x)
    ensures !Finished(c, v)
    ensures forall a: nat, b: nat :: a != v && b != v ==> (Below(Discovered(c, v), a, b) <==> Below(c, a, b))
    ensures forall a: nat :: Below(Discovered(c, v), a, v) <==> a == v || (Found(c, a) && !Finished(c, a))
    ensures forall b: nat :: Below(Discovered(c, v), v, b) <==> b == v
    ensures forall x: nat :: End(Discovered(c, v), x) == if Finished(c, x) then End(c, x) else c.now + 1
  {}

  /** An open neighbour not found yet becomes a child of the current vertex. */
  lemma DiscoverKeeps(g: Graph, open: set<nat>, root: nat, s: Search)
    requires Setting(g, open, root) && Inv(g, open, root, s) && Scanning(g, s)
    requires Turn(g, s) in open && !Found(s.clock, Turn(g, s))
    ensures Inv(g, open, root, AfterDiscovery(g, s, Current(s), Turn(g, s)))
  {
    hide Times, Path, Tree, Nested, Scanned, LowBound, LowAttained, Flags, Discovered;
    var u, v := Current(s), Turn(g, s);
    CurrentFacts(g, open, root, s, v);
    DiscoveryTimes(s.clock, v);
    DiscoverPath(s, u, v);
    DiscoverTree(g, open, root, s, u, v);
    DiscoverNested(g, open, root, s, u, v);
    DiscoverScanned(g, open, s, u, v);
    DiscoverBound(g, open, s, u, v);
    DiscoverAttained(g, open, s, u, v);
    DiscoverFlags(root, s, u, v);
  }

  /** The stack stays a list of unfinished vertices in the order of their discovery. */
  lemma DiscoverStack(c: Clock, stack: seq<nat>, v: nat)
    requires Times(c) && v < |c.disc| && !Found(c, v)
    requires forall i :: 0 <= i < |stack| ==> Found(c, stack[i]) && !Finished(c, stack[i])
    requires forall i, j :: 0 <= i < j < |stack| ==> c.disc[stack[i]] < c.disc[stack[j]]
    ensures var d, more := Discovered(c, v), stack + [v];
            && (forall i :: 0 <= i < |more| ==> Found(d, more[i]) && !Finished(d, more[i]))
            && (forall i, j :: 0 <= i < j < |more| ==> d.disc[more[i]] < d.disc[more[j]])
  {
    var d, more := Discovered(c, v), stack + [v];
    forall i | 0 <= i < |stack| ensures more[i] == stack[i] != v && d.disc[more[i]] == c.disc[stack[i]] <= c.now {}
    assert more[|stack|] == v && d.disc[v] == c.now + 1;
  }

  lemma DiscoverPath(s: Search, u: nat, v: nat)
    requires Times(s.clock) && Path(s.clock, s.parent, s.stack) && s.stack != [] && u == Current(s)
    requires v < |s.clock.disc| && !Found(s.clock, v)
    ensures Path(Discovered(s.clock, v), s.parent[v := u], s.stack + [v])
  {
    hide Below, End, Times, Discovered;
    DiscoveryTimes(s.clock, v);
    DiscoverStack(s.clock, s.stack, v);
    var stack := s.stack + [v];
    forall i | 0 <= i < |s.stack| ensures stack[i] == s.stack[i] != v {
      assert Found(s.clock, s.stack[i]);
    }
    assert stack[|s.stack|] == v;
    DiscoveredShape(s.clock, v);
  }

  lemma DiscoveredShape(c: Clock, v: nat)
    requires v < |c.disc|
    ensures |Discovered(c, v).disc| == |c.disc|
  {}

  lemma FinishedDownward(root: nat, s: Search)
    requires Nested(root, s.clock, s.parent)
    ensures forall u: nat, v: nat :: Below(s.clock, u, v) && Finished(s.clock, u) ==> Finished(s.clock, v)
  {}

  lemma DiscoverTree(g: Graph, open: set<nat>, root: nat, s: Search, u: nat, v: nat)
    requires Times(s.clock) && Path(s.clock, s.parent, s.stack) && s.stack != [] && u == Current(s)
    requires Tree(g, open, root, s.clock, s.parent) && Nested(root, s.clock, s.parent)
    requires v < |g| && !Found(s.clock, v) && v in open && Edge(g, u, v)
    ensures Tree(g, open, root, Discovered(s.clock, v), s.parent[v := u])
  {
    hide Times, Nested, Reaches;
    DiscoveryTimes(s.clock, v);
    ReachesStep(g, open, root, u, v);
    FinishedDownward(root, s);
    var c, d, parent := s.clock, Discovered(s.clock, v), s.parent[v := u];
    forall x: nat | Found(d, x) && x != root ensures ChildOf(g, d, parent[x], x) {
      if x == v {
        assert ChildOf(g, d, u, v);
      } else {
        assert ChildOf(g, c, s.parent[x], x);
        if !Finished(c, x) {
          assert Below(c, s.parent[x], x);
        }
      }
    }
  }

  lemma DiscoverNested(g: Graph, open: set<nat>, root: nat, s: Search, u: nat, v: nat)
    requires Times(s.clock) && Path(s.clock, s.parent, s.stack) && s.stack != [] && u == Current(s)
    requires Tree(g, open, root, s.clock, s.parent) && Nested(root, s.clock, s.parent)
    requires v < |s.clock.disc| && v < |s.parent| && !Found(s.clock, v)
    ensures Nested(root, Discovered(s.clock, v), s.parent[v := u])
  {
    hide Tree;
    DiscoveryTimes(s.clock, v);
    var c, d, parent := s.clock, Discovered(s.clock, v), s.parent[v := u];
    RootFound(g, open, root, c, s.parent);
    forall a: nat, b: nat | Below(d, a, b) && b != a
      ensures b != root && parent[b] >= 0 && Below(d, a, parent[b])
    {
      if b == v {
        CurrentIsLast(s, a);
      }
    }
  }

  lemma RootFound(g: Graph, open: set<nat>, root: nat, c: Clock, parent: seq<int>)
    requires Tree(g, open, root, c, parent)
    ensures Found(c, root)
  {}

  /** The current vertex lies below every unfinished vertex. */
  lemma CurrentIsLast(s: Search, a: nat)
    requires Times(s.clock) && Path(s.clock, s.parent, s.stack) && s.stack != []
    requires Found(s.clock, a) && !Finished(s.clock, a)
    ensures Below(s.clock, a, Current(s))
  {
    var i :| 0 <= i < |s.stack| && s.stack[i] == a;
    assert i == |s.stack| - 1 || s.clock.disc[s.stack[i]] < s.clock.disc[s.stack[|s.stack| - 1]];
  }

  lemma DiscoverScanned(g: Graph, open: set<nat>, s: Search, u: nat, v: nat)
    requires Times(s.clock) && Scanning(g, s) && u == Current(s) && v == Turn(g, s) && !Found(s.clock, v)
    requires Found(s.clock, u) && !Finished(s.clock, u) && v < |s.clock.disc| && Scanned(g, open, s.clock, s.next)
    ensures Scanned(g, open, Discovered(s.clock, v), Ticked(g, s))
  {
    DiscoveryTimes(s.clock, v);
    hide Times, Below, End;
  }

  lemma DiscoverBound(g: Graph, open: set<nat>, s: Search, u: nat, v: nat)
    requires Times(s.clock) && Scanning(g, s) && u == Current(s) && v == Turn(g, s) && !Found(s.clock, v)
    requires Found(s.clock, u) && !Finished(s.clock, u) && v < |s.clock.disc| && Scanned(g, open, s.clock, s.next)
    requires LowBound(g, open, s.clock, s.parent, s.next, s.low) && NoChildren(s.clock, s.parent, v)
    ensures LowBound(g, open, Discovered(s.clock, v), s.parent[v := u], Ticked(g, s), s.low[v := s.clock.now + 1])
  {
    DiscoveryTimes(s.clock, v);
    hide Below, End;
  }

  lemma DiscoverAttained(g: Graph, open: set<nat>, s: Search, u: nat, v: nat)
    requires Times(s.clock) && v < |s.clock.disc| && !Found(s.clock, v) && LowAttained(g, open, s.clock, s.low)
    ensures LowAttained(g, open, Discovered(s.clock, v), s.low[v := s.clock.now + 1])
  {
    DiscoveryTimes(s.clock, v);
    var c, d, low := s.clock, Discovered(s.clock, v), s.low[v := s.clock.now + 1];
    hide Times, Below, End;
    forall a: nat | Found(d, a) && low[a] != d.disc[a]
      ensures exists x: nat, w: nat :: Touches(g, open, d, a, x, w) && d.disc[w] == low[a]
    {
      var x: nat, w: nat :| Touches(g, open, c, a, x, w) && c.disc[w] == s.low[a];
      BelowIsFound(c, a, x);
      assert Touches(g, open, d, a, x, w);
    }
  }

  lemma BelowIsFound(c: Clock, u: nat, v: nat)
    requires Below(c, u, v)
    ensures Found(c, u) && Found(c, v)
  {}

  lemma DiscoverFlags(root: nat, s: Search, u: nat, v: nat)
    requires Times(s.clock) && Flags(root, s.clock, s.parent, s.low, s.cut)
    requires v < |s.clock.disc| && !Found(s.clock, v) && |s.parent| == |s.low| == |s.clock.disc|
    requires NoChildren(s.clock, s.parent, v)
    ensures Flags(root, Discovered(s.clock, v), s.parent[v := u], s.low[v := s.clock.now + 1], s.cut)
  {
    DiscoveryTimes(s.clock, v);
    var d, parent, low := Discovered(s.clock, v), s.parent[v := u], s.low[v := s.clock.now + 1];
    hide Below, End, Times;
    forall p: nat, c: nat ensures Hanging(s.clock, s.parent, s.low, p, c) <==> Hanging(d, parent, low, p, c) {
      if p == v || c == v {
        assert !Hanging(s.clock, s.parent, s.low, p, c) && !Hanging(d, parent, low, p, c);
      }
    }
  }

  /** The clock after finishing u. */
  function FinishedAt(c: Clock, u: nat): Clock
    requires u < |c.fin|
  {
    c.(fin := c.fin[u := c.now])
  }

  /** The low-links after child u of p is finished. */
  function Raised(low: seq<nat>, p: int, u: nat): seq<nat>
    requires u < |low|
  {
    if 0 <= p < |low| && low[u] < low[p] then low[p := low[u]] else low
  }

  function Reported(cut: seq<bool>, c: Clock, parent: seq<int>, low: seq<nat>, p: int, u: nat): seq<bool>
    requires u < |low|
  {
    if 0 <= p < |cut| && p < |parent| && p < |c.disc| && parent[p] >= 0 && low[u] >= c.disc[p] then cut[p := true] else cut
  }

  function AfterFinish(s: Search, u: nat): Search
    requires s.stack != [] && u < |s.clock.fin| && u < |s.parent| && u < |s.low|
  {
    var p := s.parent[u];
    Search(FinishedAt(s.clock, u), s.parent, Raised(s.low, p, u), s.next,
           Reported(s.cut, s.clock, s.parent, s.low, p, u), s.stack[..|s.stack| - 1])
  }

  lemma FinishTimes(c: Clock, u: nat)
    requires Times(c) && Found(c, u) && !Finished(c, u)
    ensures Times(FinishedAt(c, u))
    ensures forall x: nat :: Found(FinishedAt(c, u), x) <==> Found(c, x)
    ensures forall x: nat :: Finished(FinishedAt(c, u), x) <==> Finished(c, x) || x == u
    ensures forall x: nat :: End(FinishedAt(c, u), x) == End(c, x)
    ensures forall a: nat, b: nat :: Below(FinishedAt(c, u), a, b) <==> Below(c, a, b)
  {}

  /** The current vertex, fully scanned, leaves the stack and reports to its parent. */
  lemma FinishKeeps(g: Graph, open: set<nat>, root: nat, s: Search)
    requires Setting(g, open, root) && Inv(g, open, root, s) && s.stack != []
    requires Current(s) < |g| == |s.next| && s.next[Current(s)] == |g[Current(s)]|
    ensures |s.clock.disc| == |s.clock.fin| == |s.parent| == |s.low| == |s.next| == |s.cut| == |g|
    ensures Inv(g, open, root, AfterFinish(s, Current(s)))
  {
    hide Times, Path, Tree, Nested, Scanned, LowBound, LowAttained, Flags, FinishedAt, Raised, Reported;
    var u := Current(s);
    CurrentFacts(g, open, root, s, u);
    FinishTimes(s.clock, u);
    FinishPath(s, u);
    FinishTree(g, open, root, s, u);
    FinishNested(root, s, u);
    FinishScanned(g, open, s, u);
    if s.parent[u] >= 0 {
      ParentUnfinished(g, open, root, s, u);
    }
    FinishBound(g, open, s, u);
    FinishAttained(g, open, root, s, u);
    FinishFlags(root, s, u);
  }

  lemma FinishPath(s: Search, u: nat)
    requires Times(s.clock) && Path(s.clock, s.parent, s.stack) && s.stack != [] && u == Current(s)
    ensures Path(FinishedAt(s.clock, u), s.parent, s.stack[..|s.stack| - 1])
  {
    hide Times, Below, End;
    FinishTimes(s.clock, u);
    assert forall i :: 0 <= i < |s.stack| - 1 ==> s.stack[i] != u;
  }

  lemma FinishTree(g: Graph, open: set<nat>, root: nat, s: Search, u: nat)
    requires Times(s.clock) && Found(s.clock, u) && !Finished(s.clock, u) && Tree(g, open, root, s.clock, s.parent)
    ensures Tree(g, open, root, FinishedAt(s.clock, u), s.parent)
  {
    FinishTimes(s.clock, u);
    hide Below, End, Times;
    forall x: nat | Found(s.clock, x) && x != root ensures ChildOf(g, FinishedAt(s.clock, u), s.parent[x], x) {
      assert ChildOf(g, s.clock, s.parent[x], x);
    }
  }

  lemma FinishNested(root: nat, s: Search, u: nat)
    requires Times(s.clock) && Path(s.clock, s.parent, s.stack) && s.stack != [] && u == Current(s)
    requires Nested(root, s.clock, s.parent)
    ensures Nested(root, FinishedAt(s.clock, u), s.parent)
  {
    FinishTimes(s.clock, u);
    forall v: nat | Below(s.clock, u, v) ensures v == u || Finished(s.clock, v) {
      if !Finished(s.clock, v) {
        CurrentIsLast(s, v);
      }
    }
  }

  lemma FinishScanned(g: Graph, open: set<nat>, s: Search, u: nat)
    requires Times(s.clock) && Found(s.clock, u) && !Finished(s.clock, u) && u < |g|
    requires Scanned(g, open, s.clock, s.next) && s.next[u] == |g[u]|
    ensures Scanned(g, open, FinishedAt(s.clock, u), s.next)
  {
    FinishTimes(s.clock, u);
    hide Below, End;
  }

  ghost predicate OpenParent(root: nat, s: Search, u: nat) {
    && u < |s.parent| == |s.clock.disc|
    && var p := s.parent[u];
       0 <= p < |s.parent| && p != u && Found(s.clock, p) && !Finished(s.clock, p)
       && s.clock.disc[p] < s.clock.disc[u] && (s.parent[p] >= 0 <==> p != root)
  }

  /** The parent of the current vertex, if any, is unfinished. */
  lemma ParentUnfinished(g: Graph, open: set<nat>, root: nat, s: Search, u: nat)
    requires Inv(g, open, root, s) && Found(s.clock, u) && !Finished(s.clock, u) && s.parent[u] >= 0
    ensures OpenParent(root, s, u) && Below(s.clock, s.parent[u], u)
  {
    var p := s.parent[u];
    assert ChildOf(g, s.clock, p, u);
    assert Below(s.clock, p, u);
    assert p != root ==> ChildOf(g, s.clock, s.parent[p], p);
  }

  lemma FinishBound(g: Graph, open: set<nat>, s: Search, u: nat)
    requires Times(s.clock) && Found(s.clock, u) && !Finished(s.clock, u)
    requires LowBound(g, open, s.clock, s.parent, s.next, s.low)
    requires 0 <= s.parent[u] ==> s.parent[u] != u && !Finished(s.clock, s.parent[u])
    ensures LowBound(g, open, FinishedAt(s.clock, u), s.parent, s.next, Raised(s.low, s.parent[u], u))
  {
    FinishTimes(s.clock, u);
    hide Below, End, Times, Open;
  }

  lemma FinishAttained(g: Graph, open: set<nat>, root: nat, s: Search, u: nat)
    requires Inv(g, open, root, s) && Found(s.clock, u) && !Finished(s.clock, u)
    ensures LowAttained(g, open, FinishedAt(s.clock, u), Raised(s.low, s.parent[u], u))
  {
    FinishTimes(s.clock, u);
    var c, d, low := s.clock, FinishedAt(s.clock, u), Raised(s.low, s.parent[u], u);
    forall a: nat | Found(d, a) && low[a] != d.disc[a]
      ensures exists x: nat, w: nat :: Touches(g, open, d, a, x, w) && d.disc[w] == low[a]
    {
      var from := if low[a] == s.low[a] then a else u;
      if from == u && a != u {
        ParentUnfinished(g, open, root, s, u);
        assert a == s.parent[u] && low[a] == s.low[u] != c.disc[u];
      }
      var x: nat, w: nat :| Touches(g, open, c, from, x, w) && c.disc[w] == s.low[from];
      if from != a {
        BelowTrans(root, c, s.parent, a, u, x);
      }
      assert Touches(g, open, d, a, x, w);
    }
  }

  lemma BelowTrans(root: nat, c: Clock, parent: seq<int>, a: nat, b: nat, d: nat)
    requires Nested(root, c, parent) && |c.fin| == |c.disc| && Below(c, a, b) && Below(c, b, d)
    ensures Below(c, a, d)
  {}

  lemma FinishFlags(root: nat, s: Search, u: nat)
    requires Times(s.clock) && Found(s.clock, u) && !Finished(s.clock, u)
    requires |s.parent| == |s.low| == |s.clock.disc| && Flags(root, s.clock, s.parent, s.low, s.cut)
    requires 0 <= s.parent[u] ==> OpenParent(root, s, u)
    ensures Flags(root, FinishedAt(s.clock, u), s.parent, Raised(s.low, s.parent[u], u),
                  Reported(s.cut, s.clock, s.parent, s.low, s.parent[u], u))
  {
    FinishTimes(s.clock, u);
    var d, p, low := FinishedAt(s.clock, u), s.parent[u], Raised(s.low, s.parent[u], u);
    hide Below, End, Times;
    forall q: nat, v: nat
      ensures Hanging(d, s.parent, low, q, v) <==>
        Hanging(s.clock, s.parent, s.low, q, v) || (v == u && q == p && q < |s.parent| && s.low[u] >= d.disc[q])
    {
      if v == p {
        assert !Finished(s.clock, v) && v != u;
      }
    }
    forall q: nat | q < |s.cut| && q != root
      ensures (exists v: nat :: Hanging(d, s.parent, low, q, v)) <==>
        ((exists v: nat :: Hanging(s.clock, s.parent, s.low, q, v)) || (q == p && s.low[u] >= d.disc[q]))
    {
      if q == p && s.low[u] >= d.disc[q] {
        assert Hanging(d, s.parent, low, q, u);
      }
    }
  }
}

/**
 Choke points: an iterative low-link depth-first search from the head. From an open head the
 cells it reports are exactly the cut vertices of the reachable region. From a blocked head it
 searches each open component on its own, from the first-listed neighbour in it.
 */
module ChokePoints {
  import opened Graphs
  import opened LowLink

  /** Blocking v would disconnect some other vertex from the root. */
  ghost predicate CutVertex(g: Graph, open: set<nat>, root: nat, v: nat) {
    v != root && exists w :: w != v && Reaches(g, open, root, w) && !Reaches(g, open - {v}, root, w)
  }

  ghost predicate Done(g: Graph, open: set<nat>, root: nat, s: Search) {
    Setting(g, open, root) && Inv(g, open, root, s) && s.stack == []
  }

  lemma AllFinished(g: Graph, open: set<nat>, root: nat, s: Search, v: nat)
    requires Done(g, open, root, s) && Found(s.clock, v)
    ensures Finished(s.clock, v) && v < |g| && (v == root || v in open) && Below(s.clock, v, v)
    ensures v != root ==> ChildOf(g, s.clock, s.parent[v], v) && Below(s.clock, s.parent[v], v)
  {}

  /** An edge between vertices found: the later one lies in the subtree of the earlier one. */
  lemma NoCrossEdges(g: Graph, open: set<nat>, root: nat, s: Search, u: nat, v: nat)
    requires Done(g, open, root, s) && Found(s.clock, u) && Edge(g, u, v) && v in open
    ensures Found(s.clock, v)
    ensures s.clock.disc[u] <= s.clock.disc[v] ==> Below(s.clock, u, v)
  {
    hide Times, Path, Tree, Nested, LowBound, LowAttained, Flags;
    AllFinished(g, open, root, s, u);
    var k :| 0 <= k < |g[u]| && g[u][k] == v;
    assert Open(g, open, u, k);
  }

  lemma FoundIsReachable(g: Graph, open: set<nat>, root: nat, s: Search, v: nat)
    requires Done(g, open, root, s)
    ensures Found(s.clock, v) <==> Reaches(g, open, root, v)
  {
    assert Found(s.clock, v) ==> Reaches(g, open, root, v);
    hide Times, Path, Nested, Scanned, LowBound, LowAttained, Flags;
    if Reaches(g, open, root, v) {
      var found := set x: nat | x < |g| && Found(s.clock, x);
      forall a, b | a in found && Edge(g, a, b) && b in open ensures b in found {
        NoCrossEdges(g, open, root, s, a, b);
      }
      ReachesStaysInside(g, open, found, root, v);
    }
  }

  /** Low-links do not rise towards the root of a subtree. */
  lemma {:induction false} SubtreeLow(g: Graph, open: set<nat>, root: nat, s: Search, c: nat, v: nat)
    requires Done(g, open, root, s) && Below(s.clock, c, v)
    ensures s.low[c] <= s.low[v]
    decreases s.clock.disc[v]
  {
    if v != c {
      assert v != root && Below(s.clock, c, s.parent[v]);
      AllFinished(g, open, root, s, v);
      hide Times, Path, Tree, Nested, Scanned, LowAttained, Flags;
      SubtreeLow(g, open, root, s, c, s.parent[v]);
      assert s.low[s.parent[v]] <= s.low[v];
    }
  }

  /** The low-link is at most the time of every neighbour other than the parent. */
  lemma LowBelowNeighbor(g: Graph, open: set<nat>, root: nat, s: Search, v: nat, u: nat)
    requires Done(g, open, root, s) && Found(s.clock, v) && Edge(g, v, u) && u in open && u != s.parent[v]
    ensures Found(s.clock, u) && s.low[v] <= s.clock.disc[u]
  {
    hide Times, Path, Tree, Nested, LowAttained, Flags;
    AllFinished(g, open, root, s, v);
    NoCrossEdges(g, open, root, s, v, u);
    var k :| 0 <= k < |g[v]| && g[v][k] == u;
    assert Open(g, open, v, k);
  }

  /** The top of a component of the search: the open root, or a child of the blocked one. */
  ghost predicate Apex(g: Graph, open: set<nat>, root: nat, s: Search, e: nat) {
    && Found(s.clock, e) && e in open && e < |s.parent|
    && (if root in open then e == root else e != root && s.parent[e] == root)
  }

  /** Two vertices above a third lie above each other. */
  lemma Ancestors(g: Graph, open: set<nat>, root: nat, s: Search, a: nat, b: nat, x: nat)
    requires Done(g, open, root, s) && Below(s.clock, a, x) && Below(s.clock, b, x)
    ensures Below(s.clock, a, b) || Below(s.clock, b, a)
  {}

  /** Everything lies below the root, and nothing but the root above a child of it. */
  lemma RootOnTop(g: Graph, open: set<nat>, root: nat, s: Search, v: nat)
    requires Done(g, open, root, s) && Found(s.clock, v)
    ensures Below(s.clock, root, v)
    ensures v < |s.parent| && v != root && s.parent[v] == root ==> forall a: nat :: Below(s.clock, a, v) ==> a == v || a == root
  {
    AllFinished(g, open, root, s, v);
    RootAbove(g, open, root, s, v);
    if v != root && s.parent[v] == root {
      forall a: nat | Below(s.clock, a, v) && a != v ensures a == root {
        assert Below(s.clock, a, root);
      }
    }
  }

  lemma {:induction false} RootAbove(g: Graph, open: set<nat>, root: nat, s: Search, v: nat)
    requires Done(g, open, root, s) && Found(s.clock, v)
    ensures Below(s.clock, root, v)
    decreases s.clock.disc[v]
  {
    AllFinished(g, open, root, s, v);
    if v != root {
      RootAbove(g, open, root, s, s.parent[v]);
      BelowTrans(root, s.clock, s.parent, root, s.parent[v], v);
    }
  }

  /** Below an apex all vertices are open, and open edges do not lead out. */
  lemma ApexIsClosed(g: Graph, open: set<nat>, root: nat, s: Search, e: nat, x: nat, y: nat)
    requires Done(g, open, root, s) && Apex(g, open, root, s, e) && Below(s.clock, e, x)
    ensures x in open
    ensures Edge(g, x, y) && y in open ==> Below(s.clock, e, y)
  {
    AllFinished(g, open, root, s, x);
    RootOnTop(g, open, root, s, e);
    assert x in open by {
      assert x == root ==> Below(s.clock, e, root) && Below(s.clock, root, e);
    }
    if Edge(g, x, y) && y in open {
      NoCrossEdges(g, open, root, s, x, y);
      RootOnTop(g, open, root, s, y);
      hide Path, Tree, Scanned, LowBound, LowAttained, Flags;
      if s.clock.disc[x] <= s.clock.disc[y] {
        BelowTrans(root, s.clock, s.parent, e, x, y);
      } else {
        assert Edge(g, y, x);
        NoCrossEdges(g, open, root, s, y, x);
        Ancestors(g, open, root, s, e, y, x);
      }
    }
  }

  /** What lies below an apex is its open component. */
  lemma ApexComponent(g: Graph, open: set<nat>, root: nat, s: Search, e: nat, w: nat)
    requires Done(g, open, root, s) && Apex(g, open, root, s, e)
    ensures Below(s.clock, e, w) <==> Reaches(g, open, e, w)
  {
    AllFinished(g, open, root, s, e);
    hide Times, Path, Tree, Nested, Scanned, LowBound, LowAttained, Flags;
    if Reaches(g, open, e, w) {
      var below := set x: nat | x < |g| && Below(s.clock, e, x);
      forall x, y | x in below && Edge(g, x, y) && y in open ensures y in below {
        ApexIsClosed(g, open, root, s, e, x, y);
      }
      ReachesStaysInside(g, open, below, e, w);
    }
    if Below(s.clock, e, w) {
      ApexReaches(g, open, root, s, e, w);
    }
  }

  lemma {:induction false} ApexReaches(g: Graph, open: set<nat>, root: nat, s: Search, e: nat, w: nat)
    requires Done(g, open, root, s) && Apex(g, open, root, s, e) && Below(s.clock, e, w)
    ensures Reaches(g, open, e, w)
    decreases s.clock.disc[w]
  {
    if w == e {
      ReachesSelf(g, open, e);
    } else {
      assert w != root && Below(s.clock, e, s.parent[w]);
      AllFinished(g, open, root, s, w);
      ApexIsClosed(g, open, root, s, e, w, w);
      hide Times, Path, Tree, Nested, Scanned, LowBound, LowAttained, Flags;
      ApexReaches(g, open, root, s, e, s.parent[w]);
      ReachesStep(g, open, e, s.parent[w], w);
    }
  }

  /** An edge from c's subtree to an earlier vertex other than the parent p pulls c's low-link below p. */
  lemma EarlierNeighborClimbs(g: Graph, open: set<nat>, root: nat, s: Search, p: nat, c: nat, u: nat, v: nat)
    requires Done(g, open, root, s) && Found(s.clock, p) && c != root && c < |g| && s.parent[c] == p
    requires Found(s.clock, u) && u != p && !Below(s.clock, c, u) && Below(s.clock, c, v)
    requires Edge(g, u, v) && Edge(g, v, u) && u in open && v in open && s.clock.disc[u] < s.clock.disc[v]
    ensures s.low[c] < s.clock.disc[p]
  {
    var k := s.clock;
    NoCrossEdges(g, open, root, s, u, v);
    assert Below(k, u, c);
    assert Below(k, u, p);
    assert u != s.parent[v] by {
      assert v != c ==> Below(k, c, s.parent[v]);
    }
    LowBelowNeighbor(g, open, root, s, v, u);
    SubtreeLow(g, open, root, s, c, v);
    assert k.disc[u] != k.disc[p];
  }

  /** No open edge leads into a hanging subtree except from the vertex it hangs on. */
  lemma HangingIsSealed(g: Graph, open: set<nat>, root: nat, s: Search, p: nat, c: nat, u: nat, v: nat)
    requires Done(g, open, root, s) && p != root && c != root && Hanging(s.clock, s.parent, s.low, p, c)
    requires Found(s.clock, p) && Found(s.clock, u) && u != p && !Below(s.clock, c, u) && Edge(g, u, v) && u in open && v in open
    ensures Found(s.clock, v) && !Below(s.clock, c, v)
  {
    assert |s.parent| == |g|;
    hide Times, Path, Tree, Scanned, LowBound, LowAttained, Flags;
    NoCrossEdges(g, open, root, s, u, v);
    AllFinished(g, open, root, s, u);
    AllFinished(g, open, root, s, v);
    assert Edge(g, v, u);
    if Below(s.clock, c, v) {
      NoCrossEdges(g, open, root, s, v, u);
      if s.clock.disc[v] <= s.clock.disc[u] {
        BelowTrans(root, s.clock, s.parent, c, v, u);
      } else {
        EarlierNeighborClimbs(g, open, root, s, p, c, u, v);
      }
    }
  }

  /** Where a hanging child lies with respect to the apex. */
  lemma HangingChild(g: Graph, open: set<nat>, root: nat, s: Search, e: nat, p: nat, c: nat)
    requires Done(g, open, root, s) && Apex(g, open, root, s, e) && Below(s.clock, e, p) && p != e
    requires Hanging(s.clock, s.parent, s.low, p, c)
    ensures p != root && c != root && c != p && Found(s.clock, p) && Below(s.clock, e, c) && Below(s.clock, c, c)
    ensures !Below(s.clock, c, e)
  {
    var k := s.clock;
    assert Found(k, c) && c != root && ChildOf(g, k, p, c) && Below(k, p, c);
    RootOnTop(g, open, root, s, e);
    assert p != root;
    BelowTrans(root, k, s.parent, e, p, c);
  }

  lemma HangingCuts(g: Graph, open: set<nat>, root: nat, s: Search, e: nat, p: nat, c: nat)
    requires Done(g, open, root, s) && Apex(g, open, root, s, e) && Below(s.clock, e, p) && p != e
    requires Hanging(s.clock, s.parent, s.low, p, c)
    ensures CutVertex(g, open, e, p)
  {
    hide Times, Path, Tree, Nested, Scanned, LowBound, LowAttained, Flags, Hanging, Below;
    var k := s.clock;
    HangingChild(g, open, root, s, e, p, c);
    var outside := set x: nat | x in open && Below(k, e, x) && x != p && !Below(k, c, x);
    forall u, v | u in outside && Edge(g, u, v) && v in open - {p} ensures v in outside {
      BelowIsFound(k, e, u);
      HangingIsSealed(g, open, root, s, p, c, u, v);
      ApexIsClosed(g, open, root, s, e, u, v);
    }
    AllFinished(g, open, root, s, e);
    assert e in outside;
    if Reaches(g, open - {p}, e, c) {
      ReachesStaysInside(g, open - {p}, outside, e, c);
      assert false;
    }
    ApexComponent(g, open, root, s, e, c);
  }

  lemma BelowIsFound(c: Clock, u: nat, v: nat)
    requires Below(c, u, v)
    ensures Found(c, u) && Found(c, v)
  {}

  lemma ParentOutside(g: Graph, open: set<nat>, root: nat, s: Search, e: nat, p: nat, w: nat)
    requires Done(g, open, root, s) && Apex(g, open, root, s, e) && Found(s.clock, p)
    requires Below(s.clock, e, w) && w != e && !Below(s.clock, p, w)
    ensures w < |s.parent| && w != p && ChildOf(g, s.clock, s.parent[w], w) && w in open
    ensures s.parent[w] != p && !Below(s.clock, p, s.parent[w]) && Below(s.clock, e, s.parent[w])
  {
    ApexIsClosed(g, open, root, s, e, w, w);
    assert w != root && Below(s.clock, e, s.parent[w]);
    AllFinished(g, open, root, s, w);
    AllFinished(g, open, root, s, p);
    if Below(s.clock, p, s.parent[w]) {
      BelowTrans(root, s.clock, s.parent, p, s.parent[w], w);
    }
  }

  /** Outside p's subtree, the tree path avoids p. */
  lemma {:induction false} OutsideAvoids(g: Graph, open: set<nat>, root: nat, s: Search, e: nat, p: nat, w: nat)
    requires Done(g, open, root, s) && Apex(g, open, root, s, e) && Found(s.clock, p) && p != e
    requires Below(s.clock, e, w) && !Below(s.clock, p, w)
    ensures Reaches(g, open - {p}, e, w)
    decreases s.clock.disc[w]
  {
    hide Times, Path, Tree, Nested, Scanned, LowBound, LowAttained, Flags;
    if w == e {
      ReachesSelf(g, open - {p}, e);
    } else {
      ParentOutside(g, open, root, s, e, p, w);
      OutsideAvoids(g, open, root, s, e, p, s.parent[w]);
      ReachesStep(g, open - {p}, e, s.parent[w], w);
    }
  }

  /** Inside the subtree of a child the step to the parent is an open edge. */
  lemma ParentBelow(g: Graph, open: set<nat>, root: nat, s: Search, c: nat, x: nat) returns (q: nat)
    requires Done(g, open, root, s) && Below(s.clock, c, x) && x != c && c != root
    ensures x < |g| && q < |g| && s.parent[x] == q && Below(s.clock, c, q) && s.clock.disc[q] < s.clock.disc[x]
    ensures x in open && q in open && Edge(g, x, q) && Edge(g, q, x)
  {
    assert x != root && Below(s.clock, c, s.parent[x]);
    AllFinished(g, open, root, s, x);
    q := s.parent[x];
    AllFinished(g, open, root, s, q);
    assert q != root by {
      RootOnTop(g, open, root, s, c);
    }
  }

  /** Inside the subtree of c, and avoiding p above it, one can climb to c and descend from it. */
  lemma {:induction false} SubtreeConnected(g: Graph, open: set<nat>, root: nat, s: Search, p: nat, c: nat, x: nat)
    requires Done(g, open, root, s) && Below(s.clock, c, x) && Found(s.clock, p) && !Below(s.clock, c, p) && c != root
    ensures Reaches(g, open - {p}, x, c) && Reaches(g, open - {p}, c, x)
    decreases s.clock.disc[x]
  {
    hide Inv, Reaches;
    if x == c {
      ReachesSelf(g, open - {p}, c);
    } else {
      var q := ParentBelow(g, open, root, s, c, x);
      assert q != p && x != p;
      SubtreeConnected(g, open, root, s, p, c, q);
      ReachesStep(g, open - {p}, c, q, x);
      ReachesSelf(g, open - {p}, x);
      ReachesStep(g, open - {p}, x, x, q);
      ReachesTransitive(g, open - {p}, x, q, c);
    }
  }

  /** The child of p whose subtree contains w. */
  lemma {:induction false} ChildTowards(g: Graph, open: set<nat>, root: nat, s: Search, p: nat, w: nat) returns (c: nat)
    requires Done(g, open, root, s) && Below(s.clock, p, w) && w != p
    ensures c < |g| && s.parent[c] == p && Below(s.clock, c, w) && c != root && Found(s.clock, c)
    decreases s.clock.disc[w]
  {
    var q := s.parent[w];
    assert w != root && Below(s.clock, p, q);
    AllFinished(g, open, root, s, w);
    if q == p {
      c := w;
    } else {
      c := ChildTowards(g, open, root, s, p, q);
      BelowTrans(root, s.clock, s.parent, c, q, w);
    }
  }

  /** A child that does not hang has an open edge from its subtree to a vertex found before p. */
  lemma EscapesAbove(g: Graph, open: set<nat>, root: nat, s: Search, p: nat, c: nat) returns (x: nat, y: nat)
    requires Done(g, open, root, s) && Found(s.clock, p)
    requires c < |g| && s.parent[c] == p && c != root && Found(s.clock, c) && !Hanging(s.clock, s.parent, s.low, p, c)
    ensures Below(s.clock, c, x) && x in open && x != p && Edge(g, x, y) && Edge(g, y, x) && !Below(s.clock, c, p)
    ensures Found(s.clock, y) && y in open && s.clock.disc[y] < s.clock.disc[p]
  {
    var k := s.clock;
    AllFinished(g, open, root, s, c);
    RootOnTop(g, open, root, s, c);
    hide Path, Tree, Nested, Scanned, Flags;
    assert s.low[c] < k.disc[p] < k.disc[c];
    x, y :| Touches(g, open, k, c, x, y) && k.disc[y] == s.low[c];
    AllFinished(g, open, root, s, x);
    AllFinished(g, open, root, s, y);
  }

  /** When nothing hangs on p, every other vertex of the component can be reached around it. */
  lemma AroundVertex(g: Graph, open: set<nat>, root: nat, s: Search, e: nat, p: nat, w: nat)
    requires Done(g, open, root, s) && Apex(g, open, root, s, e) && Below(s.clock, e, p) && p != e
    requires forall c: nat :: !Hanging(s.clock, s.parent, s.low, p, c)
    requires Below(s.clock, e, w) && w != p
    ensures Reaches(g, open - {p}, e, w)
  {
    hide Times, Path, Tree, Nested, Scanned, LowBound, LowAttained, Flags;
    if !Below(s.clock, p, w) {
      OutsideAvoids(g, open, root, s, e, p, w);
    } else {
      var c := ChildTowards(g, open, root, s, p, w);
      var x, y := EscapesAbove(g, open, root, s, p, c);
      CrossesOver(g, open, root, s, e, p, c, x, y);
      OutsideAvoids(g, open, root, s, e, p, y);
      ReachesStep(g, open - {p}, e, y, x);
      SubtreeConnected(g, open, root, s, p, c, x);
      SubtreeConnected(g, open, root, s, p, c, w);
      ReachesTransitive(g, open - {p}, e, x, c);
      ReachesTransitive(g, open - {p}, e, c, w);
    }
  }

  lemma CrossesOver(g: Graph, open: set<nat>, root: nat, s: Search, e: nat, p: nat, c: nat, x: nat, y: nat)
    requires Done(g, open, root, s) && Apex(g, open, root, s, e) && Below(s.clock, e, p)
    requires c < |g| && s.parent[c] == p && c != root && Found(s.clock, c) && Below(s.clock, c, x)
    requires Edge(g, x, y) && y in open && Found(s.clock, y) && s.clock.disc[y] < s.clock.disc[p]
    ensures Below(s.clock, e, y) && !Below(s.clock, p, y)
  {
    AllFinished(g, open, root, s, c);
    BelowTrans(root, s.clock, s.parent, e, p, c);
    BelowTrans(root, s.clock, s.parent, e, c, x);
    ApexIsClosed(g, open, root, s, e, x, y);
  }

  /** In the component of an apex the finished search reports exactly the cut vertices, apart from the apex. */
  lemma ReportsCutVertices(g: Graph, open: set<nat>, root: nat, s: Search, e: nat, v: nat)
    requires Done(g, open, root, s) && Apex(g, open, root, s, e) && Below(s.clock, e, v) && v != e
    ensures v < |s.cut| && (s.cut[v] <==> CutVertex(g, open, e, v))
  {
    RootOnTop(g, open, root, s, e);
    assert v != root && |s.cut| == |g| && (s.cut[v] <==> exists c: nat :: Hanging(s.clock, s.parent, s.low, v, c));
    hide Times, Path, Tree, Nested, Scanned, LowBound, LowAttained, Flags, Below, Hanging;
    if s.cut[v] {
      var c: nat :| Hanging(s.clock, s.parent, s.low, v, c);
      HangingCuts(g, open, root, s, e, v, c);
    } else {
      forall w | w != v && Reaches(g, open, e, w) ensures Reaches(g, open - {v}, e, w) {
        ApexComponent(g, open, root, s, e, w);
        AroundVertex(g, open, root, s, e, v, w);
      }
    }
  }

  /** Some other vertex next to v is open. */
  ghost predicate HasOpenNeighbor(g: Graph, open: set<nat>, v: nat) {
    exists w :: w != v && w in open && Edge(g, v, w)
  }

  /** Below a blocked root the apex itself is reported as soon as it has an open neighbour. */
  lemma ReportsApex(g: Graph, open: set<nat>, root: nat, s: Search, e: nat)
    requires Done(g, open, root, s) && Apex(g, open, root, s, e) && root !in open
    ensures e < |s.cut| && (s.cut[e] <==> HasOpenNeighbor(g, open, e))
  {
    assert |s.cut| == |g| && (s.cut[e] <==> exists c: nat :: Hanging(s.clock, s.parent, s.low, e, c));
    AllFinished(g, open, root, s, e);
    if s.cut[e] {
      var c: nat :| Hanging(s.clock, s.parent, s.low, e, c);
      AllFinished(g, open, root, s, c);
      assert c != root;
    }
    if HasOpenNeighbor(g, open, e) {
      var w :| w != e && w in open && Edge(g, e, w);
      ApexIsClosed(g, open, root, s, e, e, w);
      var c := ChildTowards(g, open, root, s, e, w);
      if !Hanging(s.clock, s.parent, s.low, e, c) {
        var x, y := EscapesAbove(g, open, root, s, e, c);
        CrossesOver(g, open, root, s, e, e, c, x, y);
        assert false;
      }
    }
  }

  /** What cannot be reached is not reported, and neither is the root. */
  lemma ReportsOnlyReachable(g: Graph, open: set<nat>, root: nat, s: Search, v: nat)
    requires Done(g, open, root, s) && v < |g| && (v == root || !Reaches(g, open, root, v))
    ensures |s.cut| == |g| && !s.cut[v]
  {
    assert |s.cut| == |g| && (s.cut[v] <==> v != root && exists c: nat :: Hanging(s.clock, s.parent, s.low, v, c));
    FoundIsReachable(g, open, root, s, v);
    forall c: nat | c < |g| && Found(s.clock, c) && s.parent[c] == v ensures v == root || ChildOf(g, s.clock, v, c) {}
  }

  /** A vertex that cannot be reached may be blocked without effect. */
  lemma AvoidsUnreachable(g: Graph, open: set<nat>, root: nat, v: nat, w: nat)
    requires Reaches(g, open, root, w) && !Reaches(g, open, root, v)
    ensures Reaches(g, open - {v}, root, w)
  {
    var p :| IsWalkBetween(g, open, root, w, p);
    forall i {:trigger p[i + 1]} | 0 <= i < |p| - 1 ensures p[i + 1] != v {
      var q := p[..i + 2];
      assert IsWalkBetween(g, open, root, p[i + 1], q) by {
        assert forall j {:trigger q[j + 1]} :: 0 <= j < |q| - 1 ==> Edge(g, p[j], p[j + 1]) && p[j + 1] in open;
      }
    }
    assert IsWalkBetween(g, open - {v}, root, w, p);
  }
}

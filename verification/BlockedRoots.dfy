/**
 The choke-point search from a blocked head, as on a hazard the snake cannot afford: what it
 reports in terms of walks, that it misses no choke point, and when it reports no others.
 */
module BlockedRoots {
  import opened Graphs
  import opened LowLink
  import opened ChokePoints
  import opened ChokeSearch

  /** The k-th neighbour of the root is e, the first open one from which v can be reached. */
  ghost predicate EntryAt(g: Graph, open: set<nat>, root: nat, v: nat, e: nat, k: nat) {
    && root < |g| && k < |g[root]| && g[root][k] == e && e in open && Reaches(g, open, e, v)
    && forall j :: 0 <= j < k && g[root][j] in open ==> !Reaches(g, open, g[root][j], v)
  }

  /** e is the first-listed open neighbour of the root in the open component of v. */
  ghost predicate IsEntry(g: Graph, open: set<nat>, root: nat, v: nat, e: nat) {
    exists k: nat :: EntryAt(g, open, root, v, e, k)
  }

  /** The entry itself, when its component has other vertices, or a cut vertex as seen from the entry. */
  ghost predicate CutsFrom(g: Graph, open: set<nat>, e: nat, v: nat) {
    if v == e then HasOpenNeighbor(g, open, e) else CutVertex(g, open, e, v)
  }

  /** What the search from a blocked root takes for a choke point. */
  ghost predicate CutsComponent(g: Graph, open: set<nat>, root: nat, v: nat) {
    exists e: nat :: IsEntry(g, open, root, v, e) && CutsFrom(g, open, e, v)
  }

  lemma EntryIsUnique(g: Graph, open: set<nat>, root: nat, v: nat, e: nat, f: nat)
    requires IsEntry(g, open, root, v, e) && IsEntry(g, open, root, v, f)
    ensures e == f
  {
    var k: nat :| EntryAt(g, open, root, v, e, k);
    var l: nat :| EntryAt(g, open, root, v, f, l);
  }

  /** Walks between open vertices can be walked back. */
  lemma {:induction false} WalkBack(g: Graph, open: set<nat>, p: seq<nat>, k: nat)
    requires Symmetric(g) && WellFormed(g) && IsWalk(g, open, p) && p[0] in open && k < |p|
    ensures Reaches(g, open, p[k], p[0])
  {
    if k == 0 {
      ReachesSelf(g, open, p[0]);
    } else {
      WalkBack(g, open, p, k - 1);
      var i := k - 1;
      assert Edge(g, p[i], p[i + 1]) && p[i + 1] in open;
      assert p[i] in open by {
        if i > 0 {
          var h := i - 1;
          assert p[h + 1] in open;
        }
      }
      assert Edge(g, p[k], p[i]);
      ReachesSelf(g, open, p[k]);
      ReachesStep(g, open, p[k], p[k], p[i]);
      ReachesTransitive(g, open, p[k], p[i], p[0]);
    }
  }

  lemma ReachesBack(g: Graph, open: set<nat>, a: nat, b: nat)
    requires Symmetric(g) && WellFormed(g) && a in open && Reaches(g, open, a, b)
    ensures Reaches(g, open, b, a) && b in open
  {
    var p :| IsWalkBetween(g, open, a, b, p);
    WalkBack(g, open, p, |p| - 1);
    if |p| > 1 {
      var i := |p| - 2;
      assert p[i + 1] in open;
    }
  }

  lemma WalkSuffix(g: Graph, open: set<nat>, p: seq<nat>, i: nat)
    requires IsWalk(g, open, p) && i < |p|
    ensures IsWalk(g, open, p[i..])
  {
    var q := p[i..];
    forall j {:trigger q[j + 1]} | 0 <= j < |q| - 1 ensures Edge(g, q[j], q[j + 1]) && q[j + 1] in open {
      var k := i + j;
      assert Edge(g, p[k], p[k + 1]) && p[k + 1] in open;
    }
  }

  /** Everything else is reached through an open neighbour. */
  lemma ThroughNeighbor(g: Graph, open: set<nat>, root: nat, v: nat) returns (x: nat)
    requires Reaches(g, open, root, v) && v != root
    ensures x in open && Edge(g, root, x) && Reaches(g, open, x, v)
  {
    var p :| IsWalkBetween(g, open, root, v, p);
    var i := 0;
    assert Edge(g, p[i], p[i + 1]) && p[i + 1] in open;
    x := p[1];
    WalkSuffix(g, open, p, 1);
    assert IsWalkBetween(g, open, x, v, p[1..]);
  }

  /** The entry of a vertex reached is the top of its subtree in the finished search. */
  lemma ApexIsEntry(g: Graph, open: set<nat>, root: nat, s: Search, v: nat) returns (e: nat)
    requires Done(g, open, root, s) && Listed(g, open, root, s) && root !in open && v != root && Found(s.clock, v)
    ensures Apex(g, open, root, s, e) && Below(s.clock, e, v) && IsEntry(g, open, root, v, e)
  {
    RootOnTop(g, open, root, s, v);
    e := ChildTowards(g, open, root, s, root, v);
    AllFinished(g, open, root, s, e);
    var k: nat :| ListedAt(g, open, s.clock, root, e, k);
    hide Inv, Below;
    ApexComponent(g, open, root, s, e, v);
    forall j | 0 <= j < k && g[root][j] in open ensures !Reaches(g, open, g[root][j], v) {
      EarlierNotBelow(g, open, root, s, v, e, k, j);
    }
    assert EntryAt(g, open, root, v, e, k);
  }

  lemma EarlierNotBelow(g: Graph, open: set<nat>, root: nat, s: Search, v: nat, e: nat, k: nat, j: nat)
    requires Done(g, open, root, s) && Apex(g, open, root, s, e) && ListedAt(g, open, s.clock, root, e, k)
    requires Reaches(g, open, e, v) && j < k && g[root][j] in open
    ensures !Reaches(g, open, g[root][j], v)
  {
    hide Inv;
    var x := g[root][j];
    assert Open(g, open, root, j);
    if Reaches(g, open, x, v) {
      ReachesBack(g, open, x, v);
      ReachesTransitive(g, open, e, v, x);
      ApexComponent(g, open, root, s, e, x);
    }
  }

  /** From a blocked root the search reports exactly what cuts a component as seen from its entry. */
  lemma BlockedRootReports(g: Graph, open: set<nat>, root: nat, v: nat)
    requires Setting(g, open, root) && root !in open && v < |g|
    ensures |Reports(g, open, root)| == |g| && (Reports(g, open, root)[v] <==> CutsComponent(g, open, root, v))
  {
    hide Inv, CutVertex, Reports, Listed, Below, IsEntry;
    var s := FinishedSearch(g, open, root);
    ReportsOnlyReachable(g, open, root, s, root);
    if v == root || !Reaches(g, open, root, v) {
      ReportsOnlyReachable(g, open, root, s, v);
      forall e: nat ensures !IsEntry(g, open, root, v, e) {
        NoEntry(g, open, root, v, e);
      }
    } else {
      FoundIsReachable(g, open, root, s, v);
      var e := ApexIsEntry(g, open, root, s, v);
      if v == e {
        ReportsApex(g, open, root, s, e);
      } else {
        ReportsCutVertices(g, open, root, s, e, v);
      }
      forall f: nat | IsEntry(g, open, root, v, f) ensures f == e {
        EntryIsUnique(g, open, root, v, e, f);
      }
    }
  }

  lemma NoEntry(g: Graph, open: set<nat>, root: nat, v: nat, e: nat)
    requires Setting(g, open, root) && root !in open && (v == root || !Reaches(g, open, root, v))
    ensures !IsEntry(g, open, root, v, e)
  {
    if IsEntry(g, open, root, v, e) {
      assert Edge(g, root, e) && e in open && Reaches(g, open, e, v);
      ReachesBack(g, open, e, v);
      ReachesSelf(g, open, root);
      ReachesStep(g, open, root, root, e);
      ReachesTransitive(g, open, root, e, v);
    }
  }

  /** A walk that cannot avoid v passes through it. */
  lemma AvoidsOrPasses(g: Graph, open: set<nat>, a: nat, v: nat, w: nat)
    requires Reaches(g, open, a, w)
    ensures Reaches(g, open - {v}, a, w) || Reaches(g, open, v, w)
  {
    var p :| IsWalkBetween(g, open, a, w, p);
    if i :| 0 <= i < |p| && p[i] == v {
      WalkSuffix(g, open, p, i);
      assert IsWalkBetween(g, open, v, w, p[i..]);
    } else {
      assert IsWalkBetween(g, open - {v}, a, w, p);
    }
  }

  lemma EntryExists(g: Graph, open: set<nat>, root: nat, v: nat) returns (e: nat)
    requires Reaches(g, open, root, v) && v != root
    ensures IsEntry(g, open, root, v, e) && Edge(g, root, e) && e in open && Reaches(g, open, e, v)
  {
    var x := ThroughNeighbor(g, open, root, v);
    var k: nat :| k < |g[root]| && g[root][k] == x;
    k := FirstNeighbor(g, open, root, v, k);
    e := g[root][k];
    assert EntryAt(g, open, root, v, e, k);
  }

  lemma {:induction false} FirstNeighbor(g: Graph, open: set<nat>, root: nat, v: nat, k: nat) returns (l: nat)
    requires root < |g| && k < |g[root]| && g[root][k] in open && Reaches(g, open, g[root][k], v)
    ensures l < |g[root]| && EntryAt(g, open, root, v, g[root][l], l)
    decreases k
  {
    if j :| 0 <= j < k && g[root][j] in open && Reaches(g, open, g[root][j], v) {
      l := FirstNeighbor(g, open, root, v, j);
    } else {
      l := k;
    }
  }

  /** No choke point is missed: what cuts something off from the root is reported. */
  lemma NoneMissed(g: Graph, open: set<nat>, root: nat, v: nat)
    requires Setting(g, open, root) && root !in open && CutVertex(g, open, root, v)
    ensures CutsComponent(g, open, root, v)
  {
    hide IsEntry;
    var w :| w != v && Reaches(g, open, root, w) && !Reaches(g, open - {v}, root, w);
    if !Reaches(g, open, root, v) {
      AvoidsUnreachable(g, open, root, v, w);
    }
    ReachesSelf(g, open - {v}, root);
    AvoidsOrPasses(g, open, root, v, w);
    var e := EntryExists(g, open, root, v);
    ReachesTransitive(g, open, e, v, w);
    if v == e {
      OtherNeighbor(g, open, v, w);
    } else {
      if Reaches(g, open - {v}, e, w) {
        ReachesStep(g, open - {v}, root, root, e);
        ReachesTransitive(g, open - {v}, root, e, w);
      }
      assert CutVertex(g, open, e, v);
    }
  }

  /** A vertex that leads anywhere else has another open neighbour. */
  lemma OtherNeighbor(g: Graph, open: set<nat>, v: nat, w: nat)
    requires Reaches(g, open, v, w) && w != v
    ensures HasOpenNeighbor(g, open, v)
  {
    if !HasOpenNeighbor(g, open, v) {
      ReachesStaysInside(g, open, {v}, v, w);
    }
  }

  /** No open component has two distinct neighbours of the root. */
  ghost predicate Apart(g: Graph, open: set<nat>, root: nat) {
    forall x: nat, y: nat :: Edge(g, root, x) && Edge(g, root, y) && x in open && y in open && x != y ==> !Reaches(g, open, x, y)
  }

  /** When the neighbours of the root lie in components of their own, exactly the choke points are reported. */
  lemma ExactWhenApart(g: Graph, open: set<nat>, root: nat, v: nat)
    requires Setting(g, open, root) && root !in open && Apart(g, open, root)
    ensures CutsComponent(g, open, root, v) <==> CutVertex(g, open, root, v)
  {
    hide IsEntry, Apart;
    if CutVertex(g, open, root, v) {
      NoneMissed(g, open, root, v);
    }
    if CutsComponent(g, open, root, v) {
      var e: nat :| IsEntry(g, open, root, v, e) && CutsFrom(g, open, e, v);
      EntryFacts(g, open, root, v, e);
      var w: nat;
      if v == e {
        w :| w != e && w in open && Edge(g, e, w);
        ReachesSelf(g, open, e);
        ReachesStep(g, open, e, e, w);
      } else {
        w :| w != v && Reaches(g, open, e, w) && !Reaches(g, open - {v}, e, w);
      }
      ReachesTransitive(g, open, root, e, w);
      ReachesBack(g, open, e, w);
      if Reaches(g, open - {v}, root, w) {
        OnlyThroughEntry(g, open, root, v, e, w);
      }
    }
  }

  lemma EntryFacts(g: Graph, open: set<nat>, root: nat, v: nat, e: nat)
    requires Setting(g, open, root) && root !in open && IsEntry(g, open, root, v, e)
    ensures Edge(g, root, e) && e in open && Reaches(g, open, e, v) && Reaches(g, open, root, e) && v in open && v != root
  {
    assert Edge(g, root, e) && e in open && Reaches(g, open, e, v);
    ReachesSelf(g, open, root);
    ReachesStep(g, open, root, root, e);
    ReachesBack(g, open, e, v);
  }

  /** A walk from the root into the component of e enters it at e. */
  lemma OnlyThroughEntry(g: Graph, open: set<nat>, root: nat, v: nat, e: nat, w: nat)
    requires Setting(g, open, root) && root !in open && Apart(g, open, root)
    requires Edge(g, root, e) && e in open && w in open && Reaches(g, open, w, e) && Reaches(g, open - {v}, root, w)
    ensures v != e && Reaches(g, open - {v}, e, w)
  {
    var x := ThroughNeighbor(g, open - {v}, root, w);
    ReachesMonotone(g, open - {v}, open, x, w);
    ReachesTransitive(g, open, x, w, e);
  }
}

/**
 Finite graphs as adjacency lists, and the walks the engine's searches are
 specified against. A walk may start anywhere; every later vertex is open.
 */
module Graphs {
  type Graph = seq<seq<nat>>

  ghost predicate WellFormed(g: Graph) {
    forall u, k :: 0 <= u < |g| && 0 <= k < |g[u]| ==> g[u][k] < |g|
  }

  ghost predicate Symmetric(g: Graph) {
    forall u, v :: 0 <= u < |g| && 0 <= v < |g| && v in g[u] ==> u in g[v]
  }

  predicate Edge(g: Graph, u: nat, v: nat) {
    u < |g| && v in g[u]
  }

  ghost predicate IsWalk(g: Graph, open: set<nat>, p: seq<nat>) {
    && |p| > 0
    && forall i {:trigger p[i + 1]} :: 0 <= i < |p| - 1 ==> Edge(g, p[i], p[i + 1]) && p[i + 1] in open
  }

  ghost predicate IsWalkBetween(g: Graph, open: set<nat>, a: nat, b: nat, p: seq<nat>) {
    IsWalk(g, open, p) && p[0] == a && p[|p| - 1] == b
  }

  ghost predicate Reaches(g: Graph, open: set<nat>, a: nat, b: nat) {
    exists p :: IsWalkBetween(g, open, a, b, p)
  }

  ghost predicate ClosedUnder(g: Graph, open: set<nat>, s: set<nat>) {
    forall u, v :: u in s && Edge(g, u, v) && v in open ==> v in s
  }

  lemma ReachesSelf(g: Graph, open: set<nat>, a: nat)
    ensures Reaches(g, open, a, a)
  {
    assert IsWalkBetween(g, open, a, a, [a]);
  }

  lemma ReachesStep(g: Graph, open: set<nat>, a: nat, b: nat, c: nat)
    requires Reaches(g, open, a, b) && Edge(g, b, c) && c in open
    ensures Reaches(g, open, a, c)
  {
    var p :| IsWalkBetween(g, open, a, b, p);
    assert IsWalkBetween(g, open, a, c, p + [c]);
  }

  lemma ReachesTransitive(g: Graph, open: set<nat>, a: nat, b: nat, c: nat)
    requires Reaches(g, open, a, b) && Reaches(g, open, b, c)
    ensures Reaches(g, open, a, c)
  {
    var p :| IsWalkBetween(g, open, a, b, p);
    var q :| IsWalkBetween(g, open, b, c, q);
    var r := p + q[1..];
    forall i {:trigger r[i + 1]} | 0 <= i < |r| - 1
      ensures Edge(g, r[i], r[i + 1]) && r[i + 1] in open
    {
      if i + 1 < |p| {
      } else {
        var j := i + 1 - |p|;
        assert r[i + 1] == q[j + 1];
        assert r[i] == q[j];
      }
    }
    assert IsWalkBetween(g, open, a, c, r);
  }

  /** A set that contains the start and is closed under open edges contains every walk. */
  lemma {:induction false} WalkStaysInside(g: Graph, open: set<nat>, s: set<nat>, p: seq<nat>, k: nat)
    requires IsWalk(g, open, p) && p[0] in s && ClosedUnder(g, open, s) && k < |p|
    ensures p[k] in s
  {
    if k > 0 {
      WalkStaysInside(g, open, s, p, k - 1);
      var i := k - 1;
      assert Edge(g, p[i], p[i + 1]) && p[i + 1] in open;
    }
  }

  lemma ReachesStaysInside(g: Graph, open: set<nat>, s: set<nat>, a: nat, b: nat)
    requires Reaches(g, open, a, b) && a in s && ClosedUnder(g, open, s)
    ensures b in s
  {
    var p :| IsWalkBetween(g, open, a, b, p);
    WalkStaysInside(g, open, s, p, |p| - 1);
  }

  /** Opening more vertices never loses a walk. */
  lemma ReachesMonotone(g: Graph, open: set<nat>, more: set<nat>, a: nat, b: nat)
    requires Reaches(g, open, a, b) && open <= more
    ensures Reaches(g, more, a, b)
  {
    var p :| IsWalkBetween(g, open, a, b, p);
    assert IsWalkBetween(g, more, a, b, p);
  }
}

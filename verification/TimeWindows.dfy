/**
 Walks in time: a vertex may be entered at time t only inside its window. The
 module relates the sets reached after t steps to walks, and shows by loop erasure
 that a finite horizon decides reachability for walks of every length.
 */
module TimeWindows {
  import opened Graphs
  import opened Counting

  const NEVER: int := 0x3fff_ffff

  /** Vertex c may be entered at times lo[c] <= t < hi[c]. */
  datatype Field = Field(g: Graph, lo: seq<int>, hi: seq<int>)

  ghost predicate Shaped(f: Field) {
    WellFormed(f.g) && |f.lo| == |f.hi| == |f.g|
  }

  predicate Enters(f: Field, t: nat, c: nat) {
    c < |f.lo| && c < |f.hi| && f.lo[c] <= t < f.hi[c]
  }

  /** One may step from u to v, arriving at time t. */
  ghost predicate Steps(f: Field, u: nat, t: nat, v: nat) {
    Edge(f.g, u, v) && Enters(f, t, v)
  }

  ghost predicate EnteredFrom(f: Field, from: set<nat>, t: nat, c: nat) {
    exists u :: u in from && Steps(f, u, t, c)
  }

  /** The vertices where one can be at time t. */
  ghost function At(f: Field, src: set<nat>, t: nat): set<nat> {
    if t == 0 then src
    else
      var before := At(f, src, t - 1);
      set c: nat | c < |f.lo| && EnteredFrom(f, before, t, c)
  }

  ghost predicate IsRoute(f: Field, src: set<nat>, p: seq<nat>) {
    && |p| > 0 && p[0] in src
    && forall i {:trigger p[i + 1]} :: 0 <= i < |p| - 1 ==> Steps(f, p[i], i + 1, p[i + 1])
  }

  /** Being somewhere at time t means having walked there in t steps. */
  lemma {:induction false} AtIsRoute(f: Field, src: set<nat>, t: nat, c: nat)
    ensures c in At(f, src, t) <==> exists p :: IsRoute(f, src, p) && |p| == t + 1 && p[t] == c
  {
    if t == 0 {
      if c in src {
        assert IsRoute(f, src, [c]);
      }
    } else {
      if c in At(f, src, t) {
        var u :| u in At(f, src, t - 1) && Steps(f, u, t, c);
        AtIsRoute(f, src, t - 1, u);
        var p :| IsRoute(f, src, p) && |p| == t && p[t - 1] == u;
        assert IsRoute(f, src, p + [c]);
      }
      if exists p :: IsRoute(f, src, p) && |p| == t + 1 && p[t] == c {
        var p :| IsRoute(f, src, p) && |p| == t + 1 && p[t] == c;
        var i := t - 1;
        assert Steps(f, p[i], i + 1, p[i + 1]);
        AtIsRoute(f, src, t - 1, p[t - 1]);
        assert IsRoute(f, src, p[..t]);
      }
    }
  }

  /** Every vertex that can be entered at all is open from time `settled` on, until it closes for good. */
  ghost predicate Settled(f: Field, settled: nat) {
    forall c: nat, t: nat :: Enters(f, t, c) ==> f.lo[c] <= settled
  }

  /** A vertex visited twice after all windows have opened: the loop between can be left out. */
  lemma Erase(f: Field, src: set<nat>, settled: nat, p: seq<nat>, i: nat, j: nat)
    requires IsRoute(f, src, p) && Settled(f, settled)
    requires settled <= i < j < |p| && p[i] == p[j]
    ensures IsRoute(f, src, p[..i] + p[j..])
  {
    var q := p[..i] + p[j..];
    forall k {:trigger q[k + 1]} | 0 <= k < |q| - 1 ensures Steps(f, q[k], k + 1, q[k + 1]) {
      if k + 1 < i {
        assert q[k] == p[k] && q[k + 1] == p[k + 1];
      } else if k + 1 == i {
        assert q[k] == p[k] && q[k + 1] == p[k + 1];
      } else {
        var l := k - i + j;
        assert q[k] == p[l] && q[k + 1] == p[l + 1];
      }
    }
    if i == 0 {
      assert q[0] == p[j];
    }
  }

  /** Whatever is reached, is reached within the settling time plus one step for every vertex. */
  lemma {:induction false} LoopErasure(f: Field, src: set<nat>, settled: nat, t: nat, c: nat)
    requires Shaped(f) && Settled(f, settled) && c in At(f, src, t) && t > 0
    ensures exists t': nat :: 0 < t' <= settled + |f.g| && t' <= t && c in At(f, src, t')
    decreases t
  {
    if t > settled + |f.g| {
      AtIsRoute(f, src, t, c);
      var p :| IsRoute(f, src, p) && |p| == t + 1 && p[t] == c;
      var late := p[settled + 1..];
      forall k | 0 <= k < |late| ensures late[k] < |f.g| {
        var i := settled + k;
        assert late[k] == p[i + 1] && Steps(f, p[i], i + 1, p[i + 1]);
      }
      var i, j := Pigeonhole(late, |f.g|);
      i, j := i + settled + 1, j + settled + 1;
      Erase(f, src, settled, p, i, j);
      var q := p[..i] + p[j..];
      AtIsRoute(f, src, |q| - 1, c);
      LoopErasure(f, src, settled, |q| - 1, c);
    }
  }

  /** a is the least time at which c can be reached, or NEVER when there is none. */
  ghost predicate LeastArrival(f: Field, src: set<nat>, c: nat, a: int) {
    && (a == NEVER || (0 <= a < NEVER && c in At(f, src, a)))
    && forall t: nat :: t < a ==> c !in At(f, src, t)
  }

  /** Windows that all close by NEVER leave nothing to reach later. */
  lemma NeverMeansNever(f: Field, src: set<nat>, c: nat, t: nat)
    requires LeastArrival(f, src, c, NEVER) && forall v :: 0 <= v < |f.hi| ==> f.hi[v] <= NEVER
    ensures c !in At(f, src, t)
  {}
}

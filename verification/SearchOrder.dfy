/**
 The order in which the search enters cells at one time, as a function of the field alone. It
 decides what has been found when the search stops in the middle of a time.
 */
module SearchOrder {
  import opened Graphs
  import opened Counting
  import opened TimeWindows
  import opened TimeSearch

  function Degree(f: Field, u: nat): nat {
    if u < |f.g| then |f.g[u]| else 0
  }

  /**
   What is entered at time t from the first j vertices of a layer and the first k neighbours of
   the next one: each vertex once, in the order of discovery.
   */
  ghost function Entered(f: Field, layer: seq<nat>, t: nat, j: nat, k: nat): (r: seq<nat>)
    requires j <= |layer| && (k > 0 ==> j < |layer| && k <= Degree(f, layer[j]))
    ensures Distinct(r)
    decreases j, k
  {
    if k > 0 then
      var before, v := Entered(f, layer, t, j, k - 1), f.g[layer[j]][k - 1];
      if Enters(f, t, v) && v !in before then before + [v] else before
    else if j > 0 then Entered(f, layer, t, j - 1, Degree(f, layer[j - 1]))
    else []
  }

  /** The vertices where one can be at time t, in the order of discovery. */
  ghost function Layer(f: Field, start: nat, t: nat): (r: seq<nat>)
    ensures Distinct(r)
  {
    if t == 0 then [start] else
      var before := Layer(f, start, t - 1);
      Entered(f, before, t, |before|, 0)
  }

  lemma {:induction false} EnteredMeaning(f: Field, layer: seq<nat>, t: nat, j: nat, k: nat, v: nat)
    requires j <= |layer| && (k > 0 ==> j < |layer| && k <= Degree(f, layer[j]))
    ensures v in Entered(f, layer, t, j, k) <==> exists a, b :: EntersFrom(f, layer, t, j, k, a, b, v)
    decreases j, k
  {
    if k > 0 {
      var k' := k - 1;
      EnteredMeaning(f, layer, t, j, k', v);
      if a, b :| EntersFrom(f, layer, t, j, k', a, b, v) {
        assert EntersFrom(f, layer, t, j, k, a, b, v);
      }
      if f.g[layer[j]][k'] == v && Enters(f, t, v) {
        assert EntersFrom(f, layer, t, j, k, j, k', v);
      }
      if a, b :| EntersFrom(f, layer, t, j, k, a, b, v) {
        assert (a == j && b == k') || EntersFrom(f, layer, t, j, k', a, b, v);
      }
    } else if j > 0 {
      var j', all := j - 1, Degree(f, layer[j - 1]);
      EnteredMeaning(f, layer, t, j', all, v);
      if a, b :| EntersFrom(f, layer, t, j', all, a, b, v) {
        assert EntersFrom(f, layer, t, j, 0, a, b, v);
      }
      if a, b :| EntersFrom(f, layer, t, j, 0, a, b, v) {
        assert EntersFrom(f, layer, t, j', all, a, b, v);
      }
    }
  }

  /** The b-th neighbour of the a-th vertex is v, and comes before the k-th of the j-th. */
  ghost predicate EntersFrom(f: Field, layer: seq<nat>, t: nat, j: nat, k: nat, a: int, b: int, v: nat) {
    && 0 <= a < |layer| && 0 <= b < Degree(f, layer[a]) && (a < j || (a == j && b < k))
    && f.g[layer[a]][b] == v && Enters(f, t, v)
  }

  /** A layer lists exactly the vertices where one can be at that time. */
  lemma {:induction false} LayerIsAt(f: Field, start: nat, t: nat, v: nat)
    requires Shaped(f)
    ensures v in Layer(f, start, t) <==> v in At(f, {start}, t)
  {
    if t > 0 {
      var before := Layer(f, start, t - 1);
      EnteredMeaning(f, before, t, |before|, 0, v);
      if v in Layer(f, start, t) {
        var a, b :| EntersFrom(f, before, t, |before|, 0, a, b, v);
        LayerIsAt(f, start, t - 1, before[a]);
        assert Steps(f, before[a], t, v);
      }
      if v in At(f, {start}, t) {
        var u :| u in At(f, {start}, t - 1) && Steps(f, u, t, v);
        LayerIsAt(f, start, t - 1, u);
        var a :| 0 <= a < |before| && before[a] == u;
        var b :| 0 <= b < |f.g[u]| && f.g[u][b] == v;
        assert EntersFrom(f, before, t, |before|, 0, a, b, v);
      }
    }
  }

  /** What has been entered so far comes first in the layer. */
  lemma {:induction false} EnteredComesFirst(f: Field, layer: seq<nat>, t: nat, j: nat, k: nat)
    requires j <= |layer| && (k > 0 ==> j < |layer| && k <= Degree(f, layer[j]))
    ensures Entered(f, layer, t, j, k) <= Entered(f, layer, t, |layer|, 0)
    decreases |layer| - j, if j < |layer| then Degree(f, layer[j]) - k else 0
  {
    if j < |layer| {
      if k < Degree(f, layer[j]) {
        EnteredComesFirst(f, layer, t, j, k + 1);
      } else {
        EnteredComesFirst(f, layer, t, j + 1, 0);
      }
    }
  }

  ghost function Stamped(layer: seq<nat>, t: nat): (r: seq<State>)
    ensures |r| == |layer| && forall i :: 0 <= i < |r| ==> r[i] == State(t, layer[i])
  {
    seq(|layer|, i requires 0 <= i < |layer| => State(t, layer[i]))
  }

  /** All states found at times before t. */
  ghost function Earlier(f: Field, start: nat, t: nat): (r: seq<State>)
    ensures forall i :: 0 <= i < |r| ==> r[i].time < t
  {
    if t == 0 then [] else Earlier(f, start, t - 1) + Stamped(Layer(f, start, t - 1), t - 1)
  }

  /** The queue when entry h is expanded and k of its neighbours have been looked at. */
  ghost predicate Laid(f: Field, start: nat, q: seq<State>, h: nat, k: nat) {
    h < |q| &&
    var t := q[h].time;
    var earlier, layer := Earlier(f, start, t), Layer(f, start, t);
    && |earlier| <= h < |earlier| + |layer| && k <= Degree(f, layer[h - |earlier|])
    && q == earlier + Stamped(layer, t) + Stamped(Entered(f, layer, t + 1, h - |earlier|, k), t + 1)
  }

  lemma LaidStarts(f: Field, start: nat)
    ensures Laid(f, start, [State(0, start)], 0, 0)
  {}

  /** The states of the time after the current entry's are those entered so far. */
  lemma LaidMeaning(f: Field, start: nat, q: seq<State>, h: nat, k: nat, v: nat)
    requires Laid(f, start, q, h, k)
    ensures var t := q[h].time;
            var earlier, layer := Earlier(f, start, t), Layer(f, start, t);
            && q[h].cell == layer[h - |earlier|]
            && (State(t + 1, v) in q <==> v in Entered(f, layer, t + 1, h - |earlier|, k))
  {
    var t := q[h].time;
    var earlier, layer := Earlier(f, start, t), Layer(f, start, t);
    var entered := Entered(f, layer, t + 1, h - |earlier|, k);
    var first := |earlier| + |layer|;
    if v in entered {
      var i :| 0 <= i < |entered| && entered[i] == v;
      assert q[first + i] == State(t + 1, v);
    }
    if State(t + 1, v) in q {
      var i :| 0 <= i < |q| && q[i] == State(t + 1, v);
      assert i >= first && q[i] == Stamped(entered, t + 1)[i - first];
    }
  }

  lemma LaidSkips(f: Field, start: nat, q: seq<State>, h: nat, k: nat)
    requires Laid(f, start, q, h, k) && q[h].cell < |f.g| && k < |f.g[q[h].cell]|
    requires var v := f.g[q[h].cell][k]; Enters(f, q[h].time + 1, v) ==> State(q[h].time + 1, v) in q
    ensures Laid(f, start, q, h, k + 1)
  {
    LaidMeaning(f, start, q, h, k, f.g[q[h].cell][k]);
  }

  lemma LaidPushes(f: Field, start: nat, q: seq<State>, h: nat, k: nat)
    requires Laid(f, start, q, h, k) && q[h].cell < |f.g| && k < |f.g[q[h].cell]|
    requires var v := f.g[q[h].cell][k]; Enters(f, q[h].time + 1, v) && State(q[h].time + 1, v) !in q
    ensures Laid(f, start, q + [State(q[h].time + 1, f.g[q[h].cell][k])], h, k + 1)
  {
    var t, v := q[h].time, f.g[q[h].cell][k];
    var earlier, layer := Earlier(f, start, t), Layer(f, start, t);
    LaidMeaning(f, start, q, h, k, v);
    var entered := Entered(f, layer, t + 1, h - |earlier|, k);
    assert Stamped(entered + [v], t + 1) == Stamped(entered, t + 1) + [State(t + 1, v)];
    assert (q + [State(t + 1, v)])[h] == q[h];
  }

  lemma LaidAdvances(f: Field, start: nat, q: seq<State>, h: nat, k: nat)
    requires Laid(f, start, q, h, k) && h + 1 < |q| && k == Degree(f, q[h].cell)
    ensures Laid(f, start, q, h + 1, 0)
  {}
}

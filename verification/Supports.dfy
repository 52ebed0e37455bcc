/**
 Support enumeration for one player of a zero-sum matrix game with at most four moves a
 side: for every pair of equally large supports the equalizing system is solved, and the
 best strategy that holds up against every opposing move is kept.
 */
module Supports {
  import opened LinearSystems
  import opened Optional

  const TINY: real := 0.000000001

  /** The maximizing player chooses rows, the minimizing player columns. */
  datatype Side = Maximizer | Minimizer

  ghost predicate FourByFour(m: Matrix) {
    |m| == 4 && forall i :: 0 <= i < 4 ==> |m[i]| == 4
  }

  /** Bit i of the mask. */
  predicate Bit(mask: nat, i: nat)
    requires i < 4
  {
    (if i == 0 then mask else if i == 1 then mask / 2 else if i == 2 then mask / 4 else mask / 8) % 2 == 1
  }

  function Limit(n: nat): nat
    requires n <= 4
  {
    [1, 2, 4, 8, 16][n]
  }

  /** The set bits below n, in ascending order. */
  function Indices(mask: nat, n: nat): (r: seq<nat>)
    requires n <= 4
    ensures |r| <= n && forall k :: 0 <= k < |r| ==> r[k] < n && Bit(mask, r[k])
    ensures forall k, l :: 0 <= k < l < |r| ==> r[k] < r[l]
    ensures forall i :: 0 <= i < n && Bit(mask, i) ==> i in r
  {
    if n == 0 then [] else Indices(mask, n - 1) + if Bit(mask, n - 1) then [n - 1] else []
  }

  method MaskToIndices(mask: nat) returns (indices: seq<nat>)
    ensures indices == Indices(mask, 4)
  {
    indices := [];
    for i := 0 to 4
      invariant indices == Indices(mask, i)
    {
      if Bit(mask, i) {
        indices := indices + [i];
      }
    }
  }

  lemma BitBelow(mask: nat, n: nat, i: nat)
    requires n <= i < 4 && mask < Limit(n)
    ensures !Bit(mask, i)
  {}

  lemma SomeBit(mask: nat) returns (i: nat)
    requires 0 < mask < 16
    ensures i < 4 && Bit(mask, i)
  {
    i := if mask % 2 == 1 then 0 else if mask / 2 % 2 == 1 then 1 else if mask / 4 % 2 == 1 then 2 else 3;
  }

  lemma IndicesBelow(mask: nat, n: nat)
    requires n <= 4 && 0 < mask < Limit(n)
    ensures forall k :: 0 <= k < |Indices(mask, 4)| ==> Indices(mask, 4)[k] < n
    ensures Indices(mask, 4) != []
  {
    hide Indices, Bit;
    forall k | 0 <= k < |Indices(mask, 4)| ensures Indices(mask, 4)[k] < n {
      if Indices(mask, 4)[k] >= n {
        BitBelow(mask, n, Indices(mask, 4)[k]);
      }
    }
    var i := SomeBit(mask);
  }

  /** A list of distinct moves below n. */
  ghost predicate Support(s: seq<nat>, n: nat) {
    && n <= 4 && 0 < |s| <= 4
    && (forall k :: 0 <= k < |s| ==> s[k] < n)
    && (forall k, l :: 0 <= k < l < |s| ==> s[k] < s[l])
  }

  lemma MaskIsSupport(mask: nat, n: nat)
    requires n <= 4 && 0 < mask < Limit(n)
    ensures Support(Indices(mask, 4), n)
  {
    IndicesBelow(mask, n);
  }

  /** Entry (r, k) of the system: weights add up to one, and every move in the other support pays the same. */
  function Coefficient(m: Matrix, own: seq<nat>, other: seq<nat>, r: nat, k: nat): real
    requires |m| == 4 && (forall i :: 0 <= i < 4 ==> |m[i]| == 4) && |own| == |other|
    requires (forall i :: 0 <= i < |own| ==> own[i] < 4) && (forall i :: 0 <= i < |other| ==> other[i] < 4)
    requires r <= |own| && k <= |own| + 1
  {
    if r == 0 then (if k == |own| then 0.0 else 1.0)
    else if k < |own| then m[own[k]][other[r - 1]]
    else if k == |own| then -1.0
    else 0.0
  }

  ghost predicate Paired(m: Matrix, own: seq<nat>, other: seq<nat>) {
    FourByFour(m) && Support(own, 4) && Support(other, 4) && |own| == |other|
  }

  ghost function System(m: Matrix, own: seq<nat>, other: seq<nat>): (s: Matrix)
    requires Paired(m, own, other)
    ensures Shaped(s, |own| + 1)
    ensures forall r, k :: 0 <= r <= |own| && 0 <= k <= |own| + 1 ==> s[r][k] == Coefficient(m, own, other, r, k)
  {
    seq(|own| + 1, r requires 0 <= r < |own| + 1 =>
      seq(|own| + 2, k requires 0 <= k < |own| + 2 => Coefficient(m, own, other, r, k)))
  }

  /** Entry (r, k) of the buffer with the rows up to n filled and the rest zero. */
  ghost function Partial(m: Matrix, own: seq<nat>, other: seq<nat>, n: nat, r: nat, k: nat): real
    requires Paired(m, own, other) && n <= |own|
  {
    if r <= n && k <= |own| + 1 then Coefficient(m, own, other, r, k) else 0.0
  }

  ghost predicate Built(a: array2<real>, m: Matrix, own: seq<nat>, other: seq<nat>, n: nat)
    requires Paired(m, own, other) && n <= |own|
    reads a
  {
    && a.Length0 == 5 && a.Length1 == 6
    && forall r, k :: 0 <= r < 5 && 0 <= k < 6 ==> a[r, k] == Partial(m, own, other, n, r, k)
  }

  /** Fills the equation of one opposing move. */
  method FillEquation(m: Matrix, own: seq<nat>, other: seq<nat>, a: array2<real>, row: nat)
    requires Paired(m, own, other) && 0 < row <= |own| && Built(a, m, own, other, row - 1)
    modifies a
    ensures Built(a, m, own, other, row)
  {
    for i := 0 to |own|
      invariant forall r, k :: 0 <= r < 5 && 0 <= k < 6 ==>
        a[r, k] == if r == row && k < i then m[own[k]][other[row - 1]] else Partial(m, own, other, row - 1, r, k)
    {
      a[row, i] := m[own[i]][other[row - 1]];
    }
    a[row, |own|] := -1.0;
  }

  method BuildSystem(m: Matrix, own: seq<nat>, other: seq<nat>) returns (augmented: array2<real>)
    requires Paired(m, own, other)
    ensures fresh(augmented) && augmented.Length0 == 5 && augmented.Length1 == 6
    ensures Held(augmented, |own| + 1) == System(m, own, other)
  {
    augmented := new real[5, 6]((_, _) => 0.0);
    for i := 0 to |own|
      invariant forall r, k :: 0 <= r < 5 && 0 <= k < 6 ==> augmented[r, k] == if r == 0 && k < i then 1.0 else 0.0
    {
      augmented[0, i] := 1.0;
    }
    augmented[0, |own| + 1] := 1.0;
    for eq := 0 to |own|
      invariant Built(augmented, m, own, other, eq)
    {
      FillEquation(m, own, other, augmented, eq + 1);
    }
    SameMatrix(Held(augmented, |own| + 1), System(m, own, other), |own| + 1);
  }

  function Positive(x: real): (r: real)
    ensures r >= 0.0 && r >= x
  {
    if x > 0.0 then x else 0.0
  }

  /** The strategy that plays the first n supported moves with their weights, negative ones cut off. */
  function Clipped(own: seq<nat>, weights: seq<real>, n: nat): (s: seq<real>)
    requires n <= |own| && n <= |weights| && forall i :: 0 <= i < |own| ==> own[i] < 4
    ensures |s| == 4
  {
    if n == 0 then [0.0, 0.0, 0.0, 0.0]
    else Clipped(own, weights, n - 1)[own[n - 1] := Positive(weights[n - 1])]
  }

  function Total(s: seq<real>): real
    requires |s| == 4
  {
    s[0] + s[1] + s[2] + s[3]
  }

  /** The payoff of a strategy against move j, over the first n own moves. */
  ghost function Payoff(m: Matrix, s: seq<real>, n: nat, j: nat): real
    requires FourByFour(m) && |s| == 4 && n <= 4 && j < 4
  {
    if n == 0 then 0.0 else Payoff(m, s, n - 1, j) + s[n - 1] * m[n - 1][j]
  }

  /** Against every opposing move the strategy does as well as v, up to a tiny slack. */
  ghost predicate HoldsUp(side: Side, m: Matrix, s: seq<real>, size: nat, others: nat, v: real)
    requires FourByFour(m) && |s| == 4 && size <= 4 && others <= 4
  {
    forall j :: 0 <= j < others ==> Acceptable(side, Payoff(m, s, size, j), v)
  }

  predicate Acceptable(side: Side, payoff: real, v: real) {
    if side == Maximizer then payoff + TINY >= v else payoff - TINY <= v
  }

  predicate Improves(side: Side, v: real, best: real) {
    if side == Maximizer then v > best else v < best
  }

  /** Nonnegative weights on the player's moves that add up to one, up to the part cut off. */
  ghost predicate IsStrategy(s: seq<real>, size: nat) {
    && |s| == 4 && (forall i :: 0 <= i < 4 ==> s[i] >= 0.0) && (forall i :: size <= i < 4 ==> s[i] == 0.0)
    && 1.0 <= Total(s) <= 1.0 + 4.0 * TINY
  }

  /** A solution of the system of two supports that gives an acceptable strategy. */
  ghost predicate Candidate(side: Side, m: Matrix, size: nat, others: nat, own: seq<nat>, other: seq<nat>, sol: seq<real>)
    requires Paired(m, own, other) && size <= 4 && others <= 4
  {
    && Solves(System(m, own, other), |own| + 1, sol)
    && (forall i :: 0 <= i < |own| ==> sol[i] >= -TINY)
    && HoldsUp(side, m, Clipped(own, sol, |own|), size, others, sol[|own|])
  }

  ghost function PartSum(sol: seq<real>, n: nat): real
    requires n <= |sol|
  {
    if n == 0 then 0.0 else PartSum(sol, n - 1) + sol[n - 1]
  }

  lemma TotalUpdate(s: seq<real>, i: nat, x: real)
    requires |s| == 4 && i < 4
    ensures Total(s[i := x]) == Total(s) - s[i] + x
  {}

  /** Cutting off negative weights of at most the slack raises the total by at most that much each. */
  lemma {:induction false} ClippedTotal(own: seq<nat>, sol: seq<real>, n: nat, size: nat)
    requires Support(own, size) && n <= |own| && |own| <= |sol|
    requires forall i :: 0 <= i < n ==> sol[i] >= -TINY
    ensures var s := Clipped(own, sol, n);
            && PartSum(sol, n) <= Total(s) <= PartSum(sol, n) + n as real * TINY
            && (forall i :: 0 <= i < 4 ==> s[i] >= 0.0) && (forall i :: 0 <= i < 4 && i !in own[..n] ==> s[i] == 0.0)
  {
    if n > 0 {
      ClippedTotal(own, sol, n - 1, size);
      var s := Clipped(own, sol, n - 1);
      assert own[..n] == own[..n - 1] + [own[n - 1]];
      assert own[n - 1] !in own[..n - 1];
      TotalUpdate(s, own[n - 1], Positive(sol[n - 1]));
      assert n as real * TINY == (n - 1) as real * TINY + TINY;
    }
  }

  lemma {:induction false} FirstEquation(row: seq<real>, sol: seq<real>, n: nat)
    requires n <= |row| && n <= |sol| && forall k :: 0 <= k < n ==> row[k] == 1.0
    ensures Dot(row, sol, n) == PartSum(sol, n)
  {
    if n > 0 {
      FirstEquation(row, sol, n - 1);
    }
  }

  /** A candidate is a strategy. */
  lemma CandidateIsStrategy(side: Side, m: Matrix, size: nat, others: nat, own: seq<nat>, other: seq<nat>, sol: seq<real>)
    requires Paired(m, own, other) && Support(own, size) && others <= 4
    requires Candidate(side, m, size, others, own, other, sol)
    ensures IsStrategy(Clipped(own, sol, |own|), size)
  {
    var n := |own|;
    var first := System(m, own, other)[0];
    assert RowSolved(first, n + 1, sol);
    FirstEquation(first, sol, n);
    ClippedTotal(own, sol, n, size);
    assert own[..n] == own;
    assert n as real * TINY <= 4.0 * TINY;
  }

  method ClipSolution(own: seq<nat>, solution: array<real>) returns (valid: bool, strategy: array<real>)
    requires Support(own, 4) && |own| < solution.Length
    ensures fresh(strategy) && strategy.Length == 4
    ensures valid <==> forall i :: 0 <= i < |own| ==> solution[i] >= -TINY
    ensures valid ==> strategy[..] == Clipped(own, solution[..], |own|)
  {
    strategy := new real[4](_ => 0.0);
    assert strategy[..] == Clipped(own, solution[..], 0);
    for i := 0 to |own|
      invariant forall k :: 0 <= k < i ==> solution[k] >= -TINY
      invariant strategy[..] == Clipped(own, solution[..], i)
    {
      if solution[i] < -TINY {
        return false, strategy;
      }
      ghost var next := strategy[..][own[i] := Positive(solution[i])];
      strategy[own[i]] := Positive(solution[i]);
      assert strategy[..] == next;
    }
    valid := true;
  }

  method CheckPayoffs(side: Side, m: Matrix, strategy: array<real>, size: nat, others: nat, v: real) returns (valid: bool)
    requires FourByFour(m) && strategy.Length == 4 && size <= 4 && others <= 4
    ensures valid <==> HoldsUp(side, m, strategy[..], size, others, v)
  {
    for j := 0 to others
      invariant forall k :: 0 <= k < j ==> Acceptable(side, Payoff(m, strategy[..], size, k), v)
    {
      var payoff := 0.0;
      for i := 0 to size
        invariant payoff == Payoff(m, strategy[..], i, j)
      {
        payoff := payoff + strategy[i] * m[i][j];
      }
      if !Acceptable(side, payoff, v) {
        return false;
      }
    }
    return true;
  }

  /** A strategy together with the value it is said to be worth. */
  datatype Strategy = Strategy(weights: seq<real>, value: real)

  /** What a pair of supports has to offer: the solution the elimination finds, if it passes both checks. */
  ghost function Offer(side: Side, m: Matrix, size: nat, others: nat, own: seq<nat>, other: seq<nat>): (r: Option<Strategy>)
    requires Paired(m, own, other) && size <= 4 && others <= 4
  {
    var x := Solution(System(m, own, other), |own| + 1);
    if x.Some? && Passes(side, m, size, others, own, x.value)
    then Some(Strategy(Clipped(own, x.value, |own|), x.value[|own|])) else None
  }

  /** The weights are not clearly negative, and the strategy holds up against every opposing move. */
  ghost predicate Passes(side: Side, m: Matrix, size: nat, others: nat, own: seq<nat>, x: seq<real>)
    requires FourByFour(m) && Support(own, 4) && |x| == |own| + 1 && size <= 4 && others <= 4
  {
    && (forall i :: 0 <= i < |own| ==> x[i] >= -TINY)
    && HoldsUp(side, m, Clipped(own, x, |own|), size, others, x[|own|])
  }

  /** Unless the elimination gets stuck, a pair of supports offers exactly its candidates. */
  lemma OfferIsCandidate(side: Side, m: Matrix, size: nat, others: nat, own: seq<nat>, other: seq<nat>, x: seq<real>)
    requires Paired(m, own, other) && size <= 4 && others <= 4 && Solution(System(m, own, other), |own| + 1).Some?
    ensures Candidate(side, m, size, others, own, other, x) <==>
      Offer(side, m, size, others, own, other).Some? && x == Solution(System(m, own, other), |own| + 1).value
  {
    hide Solution, System, HoldsUp, Clipped;
    SolutionIsUnique(System(m, own, other), |own| + 1);
  }

  /** Whatever is offered is a strategy that holds up. */
  lemma OfferHoldsUp(side: Side, m: Matrix, size: nat, others: nat, own: seq<nat>, other: seq<nat>)
    requires Paired(m, own, other) && Support(own, size) && others <= 4 && Offer(side, m, size, others, own, other).Some?
    ensures var s := Offer(side, m, size, others, own, other).value;
            Guaranteed(side, m, size, others, s.weights, s.value)
  {
    hide Solution, System, HoldsUp, Clipped, IsStrategy;
    var x := Solution(System(m, own, other), |own| + 1).value;
    OfferIsCandidate(side, m, size, others, own, other, x);
    CandidateIsStrategy(side, m, size, others, own, other, x);
  }

  /** Solves the system of two supports and checks its solution. */
  method TrySupports(side: Side, m: Matrix, size: nat, others: nat, own: seq<nat>, other: seq<nat>)
    returns (valid: bool, strategy: array<real>, value: real)
    requires Paired(m, own, other) && size <= 4 && others <= 4
    ensures strategy.Length == 4
    ensures valid <==> Offer(side, m, size, others, own, other).Some?
    ensures valid ==> Offer(side, m, size, others, own, other) == Some(Strategy(strategy[..], value))
  {
    hide System, Solves, HoldsUp, Clipped, Solution, Held, Coefficient;
    var augmented := BuildSystem(m, own, other);
    var solution := new real[5](_ => 0.0);
    var unknowns := |own| + 1;
    var solved := SolveLinearSystem(unknowns, augmented, solution);
    strategy := new real[4];
    value := solution[|own|];
    if !solved {
      return false, strategy, value;
    }
    ghost var x := solution[..unknowns];
    valid, strategy := ClipSolution(own, solution);
    ClippedPrefix(own, solution[..], x, |own|);
    if valid {
      valid := CheckPayoffs(side, m, strategy, size, others, value);
    }
  }

  lemma {:induction false} ClippedPrefix(own: seq<nat>, a: seq<real>, b: seq<real>, n: nat)
    requires n <= |own| && n <= |a| && n <= |b| && forall i :: 0 <= i < |own| ==> own[i] < 4
    requires forall i :: 0 <= i < n ==> a[i] == b[i]
    ensures Clipped(own, a, n) == Clipped(own, b, n)
  {
    if n > 0 {
      ClippedPrefix(own, a, b, n - 1);
    }
  }

  /** The supports with these masks pair up. */
  predicate MasksPair(size: nat, others: nat, ownMask: nat, otherMask: nat)
    requires size <= 4 && others <= 4
  {
    && 0 < ownMask < Limit(size) && 0 < otherMask < Limit(others)
    && |Indices(ownMask, 4)| == |Indices(otherMask, 4)|
  }

  /** What two masks have to offer: nothing, unless their supports pair up. */
  ghost function MaskOffer(side: Side, m: Matrix, size: nat, others: nat, ownMask: nat, otherMask: nat): (r: Option<Strategy>)
    requires FourByFour(m) && size <= 4 && others <= 4
  {
    if MasksPair(size, others, ownMask, otherMask) then
      MaskIsSupport(ownMask, size);
      MaskIsSupport(otherMask, others);
      Offer(side, m, size, others, Indices(ownMask, 4), Indices(otherMask, 4))
    else None
  }

  /** Masks before (r, c) in the order of enumeration. */
  predicate Before(ownMask: nat, otherMask: nat, r: nat, c: nat) {
    ownMask < r || (ownMask == r && otherMask < c)
  }

  /** No pair of masks before (r, c) offers more than v. */
  ghost predicate NoneBetter(side: Side, m: Matrix, size: nat, others: nat, r: nat, c: nat, v: real)
    requires FourByFour(m) && size <= 4 && others <= 4
  {
    forall a: nat, b: nat :: Before(a, b, r, c) ==>
      var o := MaskOffer(side, m, size, others, a, b); o.Some? ==> !Improves(side, o.value.value, v)
  }

  /** Every pair of masks before (r, c) that offers anything offers less than v. */
  ghost predicate AllWorse(side: Side, m: Matrix, size: nat, others: nat, r: nat, c: nat, v: real)
    requires FourByFour(m) && size <= 4 && others <= 4
  {
    forall a: nat, b: nat :: Before(a, b, r, c) ==>
      var o := MaskOffer(side, m, size, others, a, b); o.Some? ==> Improves(side, v, o.value.value)
  }

  ghost predicate NoOffers(side: Side, m: Matrix, size: nat, others: nat, r: nat, c: nat)
    requires FourByFour(m) && size <= 4 && others <= 4
  {
    forall a: nat, b: nat :: Before(a, b, r, c) ==> MaskOffer(side, m, size, others, a, b).None?
  }

  /** The masks (a, b) offer s, nothing before them is as good, and nothing before (r, c) is better. */
  ghost predicate FirstBest(side: Side, m: Matrix, size: nat, others: nat, r: nat, c: nat, s: Strategy, a: nat, b: nat)
    requires FourByFour(m) && size <= 4 && others <= 4
  {
    && Before(a, b, r, c) && MaskOffer(side, m, size, others, a, b) == Some(s)
    && NoneBetter(side, m, size, others, r, c, s.value) && AllWorse(side, m, size, others, a, b, s.value)
  }

  /** The first of the best offers of the masks before (r, c), and none exactly when there are no offers. */
  ghost predicate IsBest(side: Side, m: Matrix, size: nat, others: nat, r: nat, c: nat, best: Option<Strategy>)
    requires FourByFour(m) && size <= 4 && others <= 4
  {
    match best
    case None => NoOffers(side, m, size, others, r, c)
    case Some(s) => exists a: nat, b: nat :: FirstBest(side, m, size, others, r, c, s, a, b)
  }

  /** There is only one such result. */
  lemma BestIsUnique(side: Side, m: Matrix, size: nat, others: nat, r: nat, c: nat, p: Option<Strategy>, q: Option<Strategy>)
    requires FourByFour(m) && size <= 4 && others <= 4
    requires IsBest(side, m, size, others, r, c, p) && IsBest(side, m, size, others, r, c, q)
    ensures p == q
  {
    hide MaskOffer, Improves;
    if p.Some? && q.Some? {
      var a: nat, b: nat :| FirstBest(side, m, size, others, r, c, p.value, a, b);
      var a': nat, b': nat :| FirstBest(side, m, size, others, r, c, q.value, a', b');
      assert !Before(a, b, a', b') && !Before(a', b', a, b);
    }
  }

  /** A strategy that holds up with its value. */
  ghost predicate Guaranteed(side: Side, m: Matrix, size: nat, others: nat, s: seq<real>, value: real)
    requires FourByFour(m) && size <= 4 && others <= 4
  {
    IsStrategy(s, size) && HoldsUp(side, m, s, size, others, value)
  }

  lemma BestHoldsUp(side: Side, m: Matrix, size: nat, others: nat, r: nat, c: nat, best: Option<Strategy>)
    requires FourByFour(m) && size <= 4 && others <= 4 && IsBest(side, m, size, others, r, c, best) && best.Some?
    ensures Guaranteed(side, m, size, others, best.value.weights, best.value.value)
  {
    hide NoneBetter, AllWorse, Offer, Guaranteed;
    var a: nat, b: nat :| FirstBest(side, m, size, others, r, c, best.value, a, b);
    MaskIsSupport(a, size);
    MaskIsSupport(b, others);
    OfferHoldsUp(side, m, size, others, Indices(a, 4), Indices(b, 4));
  }

  /** One more pair of masks: its offer is kept when it is the first or improves on the best. */
  lemma NextPair(side: Side, m: Matrix, size: nat, others: nat, r: nat, c: nat, best: Option<Strategy>)
    requires FourByFour(m) && size <= 4 && others <= 4 && IsBest(side, m, size, others, r, c, best)
    ensures var o := MaskOffer(side, m, size, others, r, c);
            IsBest(side, m, size, others, r, c + 1,
              if o.Some? && (best.None? || Improves(side, o.value.value, best.value.value)) then o else best)
  {
    hide MaskOffer, IsBest;
    var o := MaskOffer(side, m, size, others, r, c);
    if o.Some? && (best.None? || Improves(side, o.value.value, best.value.value)) {
      NewBest(side, m, size, others, r, c, best);
      assert FirstBest(side, m, size, others, r, c + 1, o.value, r, c);
      BestFrom(side, m, size, others, r, c + 1, o.value, r, c);
    } else if best.Some? {
      var a: nat, b: nat := BestAt(side, m, size, others, r, c, best.value);
      assert FirstBest(side, m, size, others, r, c + 1, best.value, a, b);
      BestFrom(side, m, size, others, r, c + 1, best.value, a, b);
    } else {
      StillNone(side, m, size, others, r, c);
    }
  }

  lemma BestFrom(side: Side, m: Matrix, size: nat, others: nat, r: nat, c: nat, s: Strategy, a: nat, b: nat)
    requires FourByFour(m) && size <= 4 && others <= 4 && FirstBest(side, m, size, others, r, c, s, a, b)
    ensures IsBest(side, m, size, others, r, c, Some(s))
  {}

  lemma BestAt(side: Side, m: Matrix, size: nat, others: nat, r: nat, c: nat, s: Strategy) returns (a: nat, b: nat)
    requires FourByFour(m) && size <= 4 && others <= 4 && IsBest(side, m, size, others, r, c, Some(s))
    ensures FirstBest(side, m, size, others, r, c, s, a, b)
  {
    a, b :| FirstBest(side, m, size, others, r, c, s, a, b);
  }

  lemma StillNone(side: Side, m: Matrix, size: nat, others: nat, r: nat, c: nat)
    requires FourByFour(m) && size <= 4 && others <= 4 && IsBest(side, m, size, others, r, c, None)
    requires MaskOffer(side, m, size, others, r, c).None?
    ensures IsBest(side, m, size, others, r, c + 1, None)
  {
    hide MaskOffer;
  }

  lemma NewBest(side: Side, m: Matrix, size: nat, others: nat, r: nat, c: nat, best: Option<Strategy>)
    requires FourByFour(m) && size <= 4 && others <= 4 && IsBest(side, m, size, others, r, c, best)
    requires var o := MaskOffer(side, m, size, others, r, c);
             o.Some? && (best.None? || Improves(side, o.value.value, best.value.value))
    ensures var o := MaskOffer(side, m, size, others, r, c);
            NoneBetter(side, m, size, others, r, c + 1, o.value.value) && AllWorse(side, m, size, others, r, c, o.value.value)
  {
    hide MaskOffer;
  }

  /** Masks that pair with nothing leave the best as it is. */
  lemma SkipTo(side: Side, m: Matrix, size: nat, others: nat, r: nat, c: nat, r': nat, c': nat, best: Option<Strategy>)
    requires FourByFour(m) && size <= 4 && others <= 4 && IsBest(side, m, size, others, r, c, best)
    requires forall a: nat, b: nat :: Before(a, b, r', c') && !Before(a, b, r, c) ==>
               MaskOffer(side, m, size, others, a, b).None?
    requires forall a: nat, b: nat :: Before(a, b, r, c) ==> Before(a, b, r', c')
    ensures IsBest(side, m, size, others, r', c', best)
  {
    hide MaskOffer, Improves;
    if best.Some? {
      var a: nat, b: nat := BestAt(side, m, size, others, r, c, best.value);
      assert FirstBest(side, m, size, others, r', c', best.value, a, b);
    }
  }

  lemma NextRow(side: Side, m: Matrix, size: nat, others: nat, r: nat, best: Option<Strategy>)
    requires FourByFour(m) && size <= 4 && others <= 4 && IsBest(side, m, size, others, r, Limit(others), best)
    ensures IsBest(side, m, size, others, r + 1, 1, best)
  {
    hide IsBest, Offer, Indices;
    SkipTo(side, m, size, others, r, Limit(others), r + 1, 1, best);
  }

  lemma NothingYet(side: Side, m: Matrix, size: nat, others: nat)
    requires FourByFour(m) && size <= 4 && others <= 4
    ensures IsBest(side, m, size, others, 1, 1, None)
  {
    hide Offer, Indices;
  }

  /** A support larger than the number of opposing moves has no partner. */
  lemma TooLarge(side: Side, m: Matrix, size: nat, others: nat, ownMask: nat, best: Option<Strategy>)
    requires FourByFour(m) && size <= 4 && others <= 4 && |Indices(ownMask, 4)| > others
    requires IsBest(side, m, size, others, ownMask, 1, best)
    ensures IsBest(side, m, size, others, ownMask, Limit(others), best)
  {
    hide IsBest, Offer, Indices;
    forall other: nat | 0 < other < Limit(others) ensures !MasksPair(size, others, ownMask, other) {
      MaskIsSupport(other, others);
      Ascends(Indices(other, 4), others, |Indices(other, 4)| - 1);
    }
    SkipTo(side, m, size, others, ownMask, 1, ownMask, Limit(others), best);
  }

  lemma {:induction false} Ascends(s: seq<nat>, n: nat, k: nat)
    requires Support(s, n) && k < |s|
    ensures k <= s[k] < n
  {
    if k > 0 {
      Ascends(s, n, k - 1);
    }
  }

  /** Going through all pairs of masks finds the best offer. */
  lemma BestExists(side: Side, m: Matrix, size: nat, others: nat) returns (best: Option<Strategy>)
    requires FourByFour(m) && size <= 4 && others <= 4
    ensures IsBest(side, m, size, others, Limit(size), 1, best)
  {
    hide IsBest, MaskOffer, Improves;
    best := None;
    NothingYet(side, m, size, others);
    for r := 1 to Limit(size)
      invariant IsBest(side, m, size, others, r, 1, best)
    {
      for c := 1 to Limit(others)
        invariant IsBest(side, m, size, others, r, c, best)
      {
        NextPair(side, m, size, others, r, c, best);
        var o := MaskOffer(side, m, size, others, r, c);
        best := if o.Some? && (best.None? || Improves(side, o.value.value, best.value.value)) then o else best;
      }
      NextRow(side, m, size, others, r, best);
    }
  }

  /** The first of the best strategies that any pair of supports offers. */
  ghost function Best(side: Side, m: Matrix, size: nat, others: nat): (best: Option<Strategy>)
    requires FourByFour(m) && size <= 4 && others <= 4
    ensures IsBest(side, m, size, others, Limit(size), 1, best)
  {
    assert exists b: Option<Strategy> :: IsBest(side, m, size, others, Limit(size), 1, b) by {
      var b := BestExists(side, m, size, others);
    }
    var b: Option<Strategy> :| IsBest(side, m, size, others, Limit(size), 1, b);
    b
  }

  /** The search so far, as the source keeps it: a flag, a value and a strategy. */
  ghost function Kept(found: bool, value: real, weights: seq<real>): Option<Strategy> {
    if found then Some(Strategy(weights, value)) else None
  }

  /** The best strategy over all pairs of supports of equal size: the first one with the best value offered. */
  method BestStrategy(side: Side, m: Matrix, size: nat, others: nat, strategy: array<real>)
    returns (found: bool, value: real)
    requires FourByFour(m) && size <= 4 && others <= 4 && strategy.Length == 4
    modifies strategy
    ensures Best(side, m, size, others) == Kept(found, value, strategy[..])
    ensures found ==> Guaranteed(side, m, size, others, strategy[..], value)
    ensures !found ==> strategy[..] == old(strategy[..])
  {
    hide IsBest, Guaranteed, Indices;
    found, value := false, 0.0;
    var best: seq<real> := [0.0, 0.0, 0.0, 0.0];
    NothingYet(side, m, size, others);
    var ownMask := 1;
    while ownMask < Limit(size)
      invariant 1 <= ownMask <= Limit(size) && |best| == 4
      invariant IsBest(side, m, size, others, ownMask, 1, Kept(found, value, best))
      invariant strategy[..] == old(strategy[..])
    {
      if |Indices(ownMask, 4)| <= others {
        found, value, best := TryOthers(side, m, size, others, ownMask, found, value, best);
      } else {
        TooLarge(side, m, size, others, ownMask, Kept(found, value, best));
      }
      NextRow(side, m, size, others, ownMask, Kept(found, value, best));
      ownMask := ownMask + 1;
    }
    if found {
      forall i | 0 <= i < 4 {
        strategy[i] := best[i];
      }
      assert strategy[..] == best;
      BestHoldsUp(side, m, size, others, ownMask, 1, Kept(found, value, best));
    }
    BestIsUnique(side, m, size, others, ownMask, 1, Kept(found, value, best), Best(side, m, size, others));
  }

  /** Tries one support against all opposing supports. */
  method TryOthers(side: Side, m: Matrix, size: nat, others: nat, ownMask: nat, found0: bool, value0: real, best0: seq<real>)
    returns (found: bool, value: real, best: seq<real>)
    requires FourByFour(m) && size <= 4 && others <= 4 && 1 <= ownMask < Limit(size) && |best0| == 4
    requires IsBest(side, m, size, others, ownMask, 1, Kept(found0, value0, best0))
    ensures IsBest(side, m, size, others, ownMask, Limit(others), Kept(found, value, best)) && |best| == 4
  {
    hide IsBest, Indices, Offer, Improves, Bit;
    found, value, best := found0, value0, best0;
    var otherMask := 1;
    while otherMask < Limit(others)
      invariant 1 <= otherMask <= Limit(others) && |best| == 4
      invariant IsBest(side, m, size, others, ownMask, otherMask, Kept(found, value, best))
    {
      NextPair(side, m, size, others, ownMask, otherMask, Kept(found, value, best));
      var own := MaskToIndices(ownMask);
      var other := MaskToIndices(otherMask);
      if |own| == |other| {
        MaskIsSupport(ownMask, size);
        MaskIsSupport(otherMask, others);
        var valid, strategy, candidate := TrySupports(side, m, size, others, own, other);
        if valid && (!found || Improves(side, candidate, value)) {
          found, value, best := true, candidate, strategy[..];
        }
      }
      otherMask := otherMask + 1;
    }
  }
}

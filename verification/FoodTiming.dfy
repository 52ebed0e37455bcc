/**
 Food timing: how early a snake can have eaten a number of distinct foods, how long
 eating can delay the departure of a body segment, and why both bounds are safe for
 every way of eating.
 */
module FoodTiming {
  import opened Graphs
  import opened Grid
  import opened Boards
  import opened Counting
  import opened TimeWindows

  function SaturatingAdd(left: int, right: int): (r: int)
    requires left >= 0 && right >= 0
    ensures r == if left + right < NEVER then left + right else NEVER
  {
    if left >= NEVER || right >= NEVER || right > NEVER - left then NEVER else left + right
  }

  predicate Ascending(a: seq<int>) {
    forall i, j :: 0 <= i <= j < |a| ==> a[i] <= a[j]
  }

  /** The earliest turn of the meal with the given number. */
  function MealTime(arrivals: seq<int>, i: nat): int
    requires i < |arrivals|
  {
    if arrivals[i] > i + 1 then arrivals[i] else i + 1
  }

  function PromotionTime(arrivals: seq<int>, meals: int): int {
    if meals <= 0 then 0
    else if |arrivals| < meals then NEVER
    else MealTime(arrivals, meals - 1)
  }

  /** How many of the first n turns are meals. */
  ghost function Meals(eats: seq<bool>, n: nat): (r: nat)
    requires n <= |eats|
    ensures r <= n
  {
    if n == 0 then 0 else Meals(eats, n - 1) + if eats[n - 1] then 1 else 0
  }

  /** Every meal is a food of its own, eaten no earlier than it can be reached; turns count from one. */
  ghost predicate Plan(arrivals: seq<int>, eats: seq<bool>, food: seq<nat>) {
    && |food| == |eats|
    && (forall t :: 0 <= t < |eats| && eats[t] ==> food[t] < |arrivals| && arrivals[food[t]] <= t + 1)
    && (forall t, u :: 0 <= t < u < |eats| && eats[t] && eats[u] ==> food[t] != food[u])
  }

  ghost function Eaten(eats: seq<bool>, food: seq<nat>, n: nat): seq<nat>
    requires n <= |eats| == |food|
  {
    if n == 0 then [] else Eaten(eats, food, n - 1) + if eats[n - 1] then [food[n - 1]] else []
  }

  lemma {:induction false} EatenIsDistinct(arrivals: seq<int>, eats: seq<bool>, food: seq<nat>, n: nat)
    requires Plan(arrivals, eats, food) && n <= |eats|
    ensures var list := Eaten(eats, food, n);
            && |list| == Meals(eats, n) && Distinct(list)
            && (forall i :: 0 <= i < |list| ==> list[i] < |arrivals| && arrivals[list[i]] <= n)
            && (forall i :: 0 <= i < |list| ==> WasEaten(eats, food, n, list[i]))
  {
    if n > 0 {
      EatenIsDistinct(arrivals, eats, food, n - 1);
      var list, before := Eaten(eats, food, n), Eaten(eats, food, n - 1);
      forall i | 0 <= i < |list| ensures WasEaten(eats, food, n, list[i]) {
        if i < |before| {
          assert WasEaten(eats, food, n - 1, before[i]);
        }
      }
    }
  }

  ghost predicate WasEaten(eats: seq<bool>, food: seq<nat>, n: nat, f: nat)
    requires n <= |eats| == |food|
  {
    exists t :: 0 <= t < n && eats[t] && food[t] == f
  }

  /** Whoever has eaten m distinct foods by turn n has lived at least until the m-th meal time. */
  lemma MealsTakeTime(arrivals: seq<int>, eats: seq<bool>, food: seq<nat>, n: nat)
    requires Ascending(arrivals) && Plan(arrivals, eats, food) && n <= |eats|
    ensures Meals(eats, n) <= |arrivals|
    ensures forall i :: 0 <= i < Meals(eats, n) ==> MealTime(arrivals, i) <= n
  {
    var list, m := Eaten(eats, food, n), Meals(eats, n);
    EatenIsDistinct(arrivals, eats, food, n);
    DistinctBound(list, |arrivals|);
    if m > 0 {
      if forall i :: 0 <= i < |list| ==> list[i] < m - 1 {
        DistinctBound(list, m - 1);
        assert false;
      }
      var i :| 0 <= i < |list| && list[i] >= m - 1;
      assert arrivals[m - 1] <= arrivals[list[i]] <= n;
    }
  }

  /** No way of eating reaches the required number of distinct meals before the promotion time. */
  lemma PromotionIsConservative(arrivals: seq<int>, eats: seq<bool>, food: seq<nat>, n: nat, meals: nat)
    requires Ascending(arrivals) && Plan(arrivals, eats, food) && n <= |eats| && Meals(eats, n) >= meals
    ensures PromotionTime(arrivals, meals) <= n
  {
    MealsTakeTime(arrivals, eats, food, n);
  }

  /** How many meals fit up to the deadline, in order. */
  function MealsBy(arrivals: seq<int>, deadline: int, i: nat): (r: nat)
    requires i <= |arrivals|
    ensures r <= |arrivals| - i
    decreases |arrivals| - i
  {
    if i == |arrivals| || MealTime(arrivals, i) > deadline then 0 else 1 + MealsBy(arrivals, deadline, i + 1)
  }

  lemma {:induction false} MealsByCounts(arrivals: seq<int>, deadline: int, i: nat, n: nat)
    requires i <= n <= |arrivals| && forall k :: i <= k < n ==> MealTime(arrivals, k) <= deadline
    ensures MealsBy(arrivals, deadline, i) >= n - i
    decreases n - i
  {
    if i < n {
      MealsByCounts(arrivals, deadline, i + 1, n);
    }
  }

  lemma {:induction false} MealsByMonotone(arrivals: seq<int>, deadline: int, later: int, i: nat)
    requires i <= |arrivals| && deadline <= later
    ensures MealsBy(arrivals, deadline, i) <= MealsBy(arrivals, later, i)
    decreases |arrivals| - i
  {
    if i < |arrivals| {
      MealsByMonotone(arrivals, deadline, later, i + 1);
    }
  }

  /** The meals that fit when the departure is delayed by d turns. */
  function NextDelay(arrivals: seq<int>, base: nat, d: nat): (r: nat)
    ensures r <= |arrivals|
  {
    MealsBy(arrivals, SaturatingAdd(base, d), 0)
  }

  lemma NextDelayMonotone(arrivals: seq<int>, base: nat, d: nat, e: nat)
    requires d <= e
    ensures NextDelay(arrivals, base, d) <= NextDelay(arrivals, base, e)
  {
    MealsByMonotone(arrivals, SaturatingAdd(base, d), SaturatingAdd(base, e), 0);
  }

  /** d is the least delay that the meals fitting into it do not exceed. */
  ghost predicate LeastFixedPoint(arrivals: seq<int>, base: nat, d: nat) {
    && NextDelay(arrivals, base, d) == d
    && forall e: nat :: NextDelay(arrivals, base, e) <= e ==> d <= e
  }

  method CountMeals(arrivals: seq<int>, deadline: int) returns (count: nat)
    ensures count == MealsBy(arrivals, deadline, 0)
  {
    count := 0;
    for i := 0 to |arrivals|
      invariant count == i && MealsBy(arrivals, deadline, 0) == i + MealsBy(arrivals, deadline, i)
    {
      if MealTime(arrivals, i) > deadline {
        break;
      }
      count := count + 1;
    }
  }

  /** Iterates from no delay upwards; stops at the least fixed point. */
  method FoodDelayFixedPoint(arrivals: seq<int>, base: nat) returns (delay: nat)
    ensures LeastFixedPoint(arrivals, base, delay)
  {
    delay := 0;
    while delay < |arrivals|
      invariant delay <= |arrivals| && delay <= NextDelay(arrivals, base, delay)
      invariant forall e: nat :: NextDelay(arrivals, base, e) <= e ==> delay <= e
      decreases |arrivals| - delay
    {
      var next := CountMeals(arrivals, SaturatingAdd(base, delay));
      if next <= delay {
        break;
      }
      forall e: nat | NextDelay(arrivals, base, e) <= e ensures next <= e {
        NextDelayMonotone(arrivals, base, delay, e);
      }
      NextDelayMonotone(arrivals, base, delay, next);
      delay := next;
    }
  }

  /** Whatever is eaten, at most `delay` meals have been eaten by turn base + delay. */
  lemma DelayBoundsMeals(arrivals: seq<int>, base: nat, delay: nat, eats: seq<bool>, food: seq<nat>)
    requires Ascending(arrivals) && Plan(arrivals, eats, food) && LeastFixedPoint(arrivals, base, delay)
    requires base + delay < NEVER && base + delay <= |eats|
    ensures Meals(eats, base + delay) <= delay
  {
    MealsTakeTime(arrivals, eats, food, base + delay);
    MealsByCounts(arrivals, base + delay, 0, Meals(eats, base + delay));
  }

  /** Each turn adds at most one meal. */
  lemma {:induction false} MealsAdd(eats: seq<bool>, n: nat, m: nat)
    requires n <= m <= |eats|
    ensures Meals(eats, m) <= Meals(eats, n) + m - n
  {
    if n < m {
      MealsAdd(eats, n, m - 1);
    }
  }

  /** The body after turns with the given heads, growing where the snake eats. */
  ghost function BodyAfterTurns(body: seq<Coord>, heads: seq<Coord>, eats: seq<bool>, n: nat): (r: seq<Coord>)
    requires body != [] && n <= |heads| == |eats|
    ensures r != []
  {
    if n == 0 then body else BodyAfter(BodyAfterTurns(body, heads, eats, n - 1), heads[n - 1], eats[n - 1])
  }

  /** The latest heads first. */
  ghost function Trail(heads: seq<Coord>, n: nat): (r: seq<Coord>)
    requires n <= |heads|
    ensures |r| == n
  {
    if n == 0 then [] else [heads[n - 1]] + Trail(heads, n - 1)
  }

  /** A body is its trail followed by the old body, cut to its length. */
  lemma {:induction false} BodyIsTrail(body: seq<Coord>, heads: seq<Coord>, eats: seq<bool>, n: nat)
    requires body != [] && n <= |heads| == |eats|
    ensures BodyAfterTurns(body, heads, eats, n) == (Trail(heads, n) + body)[..|body| + Meals(eats, n)]
  {
    if n > 0 {
      BodyIsTrail(body, heads, eats, n - 1);
      var before, all := BodyAfterTurns(body, heads, eats, n - 1), Trail(heads, n - 1) + body;
      var length := |body| + Meals(eats, n - 1);
      assert Trail(heads, n) + body == [heads[n - 1]] + all;
      assert before[..|before| - 1] == all[..length - 1];
      assert ([heads[n - 1]] + all)[..length] == [heads[n - 1]] + all[..length - 1];
      assert ([heads[n - 1]] + all)[..length + 1] == [heads[n - 1]] + all[..length];
    }
  }

  /**
   From turn base + delay on, segment j and everything behind it is gone, whichever distinct
   foods the snake eats on whichever turns it can: the body lies in its trail and the
   segments before j.
   */
  lemma SegmentVacates(body: seq<Coord>, j: nat, arrivals: seq<int>, delay: nat, heads: seq<Coord>, eats: seq<bool>,
                       food: seq<nat>, n: nat)
    requires j < |body| && n <= |heads| == |eats|
    requires Ascending(arrivals) && Plan(arrivals, eats, food) && LeastFixedPoint(arrivals, |body| - j, delay)
    requires SaturatingAdd(|body| - j, delay) < NEVER && SaturatingAdd(|body| - j, delay) <= n
    ensures var now := BodyAfterTurns(body, heads, eats, n);
            && |now| <= n + j && now == (Trail(heads, n) + body[..j])[..|now|]
  {
    var base := |body| - j;
    DelayBoundsMeals(arrivals, base, delay, eats, food);
    MealsAdd(eats, base + delay, n);
    BodyIsTrail(body, heads, eats, n);
    var length := |body| + Meals(eats, n);
    assert (Trail(heads, n) + body)[..length] == (Trail(heads, n) + body[..j])[..length];
  }

  /** With no cell taken to be occupied, no walk reaches a cell before its arrival time. */
  lemma ArrivalIsOptimistic(g: Graph, start: nat, walk: seq<nat>, t: nat, arrival: int)
    requires t < |walk| && t < NEVER && walk[0] == start && WellFormed(g)
    requires forall i {:trigger walk[i + 1]} :: 0 <= i < |walk| - 1 ==> Edge(g, walk[i], walk[i + 1])
    requires LeastArrival(Field(g, seq(|g|, _ => 0), seq(|g|, _ => NEVER)), {start}, walk[t], arrival)
    ensures arrival <= t
  {
    var f, p := Field(g, seq(|g|, _ => 0), seq(|g|, _ => NEVER)), walk[..t + 1];
    forall i {:trigger p[i + 1]} | 0 <= i < |p| - 1 ensures Steps(f, p[i], i + 1, p[i + 1]) {
      assert p[i + 1] == walk[i + 1] && p[i] == walk[i];
      var k :| 0 <= k < |g[p[i]]| && g[p[i]][k] == p[i + 1];
    }
    assert IsRoute(f, {start}, p);
    AtIsRoute(f, {start}, t, walk[t]);
  }
}

/**
 Layered selection of a root move: each layer removes the moves dominated by another one
 still in play, or keeps the best by some measure; ties fall through to the next layer.
 */
module RootSelection {
  import opened Grid
  import opened Boards
  import opened Optional
  import opened Limits
  import opened Outcomes
  import opened RootComparison
  import Counting

  type Mask = set<Move>

  /** What the search recorded about the root moves. */
  datatype Records = Records(value: Move -> Value, stats: Move -> Stats)

  datatype Metrics = Metrics(exits: int, forced: int, reachable: int)

  /** What the fallback layers look at; None when the corridor of a move cannot be measured. */
  datatype Surroundings = Surroundings(
    lengthConstrained: bool, spaceConstrained: bool, corridor: Move -> Option<Metrics>, tailPath: Move -> nat,
    heading: Move, reachable: Move -> int, preferred: Move, order: seq<Move>)

  datatype Selection = Selection(move: Move, reason: Reason)

  ghost predicate OnlyMoves(mask: Mask) {
    forall m :: m in mask ==> m in DIRECTIONS
  }

  /** A better move according to the recorded outcome intervals. */
  predicate OutcomeDominates(r: Records, c: Move, i: Move) {
    LowerRank(r.value(c)) > UpperRank(r.value(i))
  }

  /** A structurally proven move against an unsafe or deficient one, on one side of the unresolved frontier. */
  predicate StructureDominatesOn(r: Records, unresolved: bool, c: Move, i: Move) {
    && (r.value(c).outcome == Some(Unresolved) && r.value(i).outcome == Some(Unresolved)) == unresolved
    && StructureDominates(r.stats(c), r.stats(i))
  }

  function NumericLower(v: Value): real
    requires v.score.Number?
  {
    if v.bound == Some(UpperBound) then -DBL_MAX else v.score.value
  }

  function NumericUpper(v: Value): real
    requires v.score.Number?
  {
    if v.bound == Some(LowerBound) then DBL_MAX else v.score.value
  }

  /** Exact unresolved values compare by score; other finite values by the intervals their bounds allow. */
  predicate NumericDominates(r: Records, c: Move, i: Move) {
    var cv, iv := r.value(c), r.value(i);
    var exact := cv.bound == Some(Exact) && iv.bound == Some(Exact) && cv.outcome == Some(Unresolved) && iv.outcome == Some(Unresolved);
    if exact && ScorePreference(cv.score, iv.score) == Candidate then true
    else if exact && ScorePreference(cv.score, iv.score) != Equal then false
    else cv.score.Number? && iv.score.Number? && NumericLower(cv) > NumericUpper(iv)
  }

  /** The moves of the mask among the first n directions. */
  ghost function UpTo(mask: Mask, n: nat): (s: Mask)
    requires n <= 4
    ensures n == 0 ==> s == {}
    ensures n == 4 && OnlyMoves(mask) ==> s == mask
  {
    assert DIRECTIONS[..4] == DIRECTIONS;
    set m | m in mask && m in DIRECTIONS[..n]
  }

  lemma UpToNext(mask: Mask, n: nat)
    requires n < 4
    ensures DIRECTIONS[n] !in UpTo(mask, n)
    ensures UpTo(mask, n + 1) == if DIRECTIONS[n] in mask then UpTo(mask, n) + {DIRECTIONS[n]} else UpTo(mask, n)
  {
    assert DIRECTIONS[..n + 1] == DIRECTIONS[..n] + [DIRECTIONS[n]];
  }

  /** The relations the layers remove by. */
  datatype Relation = ByOutcome | ByStructure(unresolved: bool) | ByNumber

  predicate Dominates(r: Records, on: Relation, c: Move, i: Move) {
    match on
    case ByOutcome => OutcomeDominates(r, c, i)
    case ByStructure(unresolved) => StructureDominatesOn(r, unresolved, c, i)
    case ByNumber => NumericDominates(r, c, i)
  }

  /** Some other move of the mask dominates i. */
  ghost predicate Dominated(r: Records, on: Relation, mask: Mask, i: Move) {
    exists c :: c in mask && c != i && Dominates(r, on, c, i)
  }

  /** The moves no other move of the mask dominates. */
  ghost function Undominated(r: Records, on: Relation, mask: Mask): (kept: Mask)
    ensures kept <= mask
  {
    set i | i in mask && !Dominated(r, on, mask, i)
  }

  /** Whether a move is dominated by one of the first directions. */
  method FindDominator(r: Records, on: Relation, mask: Mask, incumbent: Move) returns (found: bool)
    requires OnlyMoves(mask)
    ensures found <==> Dominated(r, on, mask, incumbent)
  {
    for k := 0 to 4
      invariant forall l :: 0 <= l < k ==>
        !(DIRECTIONS[l] in mask && DIRECTIONS[l] != incumbent && Dominates(r, on, DIRECTIONS[l], incumbent))
    {
      var candidate := DIRECTIONS[k];
      if candidate != incumbent && candidate in mask && Dominates(r, on, candidate, incumbent) {
        return true;
      }
    }
    forall c | c in mask && c != incumbent ensures !Dominates(r, on, c, incumbent) {
      var l :| 0 <= l < 4 && DIRECTIONS[l] == c;
    }
    return false;
  }

  method RemoveDominated(r: Records, on: Relation, mask: Mask) returns (kept: Mask)
    requires OnlyMoves(mask)
    ensures kept == Undominated(r, on, mask)
  {
    var dominated: Mask := {};
    for i := 0 to 4
      invariant dominated == set m | m in UpTo(mask, i) && Dominated(r, on, mask, m)
    {
      var incumbent := DIRECTIONS[i];
      UpToNext(mask, i);
      if incumbent in mask {
        var found := FindDominator(r, on, mask, incumbent);
        if found {
          dominated := dominated + {incumbent};
        }
      }
    }
    kept := mask - dominated;
  }

  /** A measure that grows along each relation. */
  ghost function Measure(r: Records, on: Relation, m: Move): real {
    match on
    case ByOutcome => LowerRank(r.value(m)) as real
    case ByStructure(_) => if r.stats(m).proof == Safe then 1.0 else 0.0
    case ByNumber => if r.value(m).score.Number? then NumericLower(r.value(m)) else -DBL_MAX - 1.0
  }

  /** The numeric layer mixes two relations; the least score a value allows grows along both. */
  lemma NumericLowerGrows(r: Records, c: Move, i: Move)
    requires NumericDominates(r, c, i)
    ensures r.value(c).score.Number?
    ensures r.value(i).score.Number? ==> NumericLower(r.value(c)) > NumericLower(r.value(i))
  {}

  lemma DominationGrows(r: Records, on: Relation, c: Move, i: Move)
    requires Dominates(r, on, c, i)
    ensures Measure(r, on, c) > Measure(r, on, i)
  {
    hide NumericDominates;
    if on == ByNumber {
      NumericLowerGrows(r, c, i);
    }
  }

  /** Each relation is acyclic, so a layer never removes everything. */
  lemma LayerKeepsSome(r: Records, on: Relation, mask: Mask)
    requires mask != {}
    ensures Undominated(r, on, mask) != {}
  {
    hide Dominates, Measure;
    var best := Largest(mask, m => Measure(r, on, m));
    forall c | c in mask && c != best ensures !Dominates(r, on, c, best) {
      assert Measure(r, on, c) <= Measure(r, on, best);
      if Dominates(r, on, c, best) {
        DominationGrows(r, on, c, best);
      }
    }
    assert best in Undominated(r, on, mask);
  }

  lemma {:induction false} Largest(mask: Mask, measure: Move -> real) returns (best: Move)
    requires mask != {}
    ensures best in mask && forall m :: m in mask ==> measure(m) <= measure(best)
    decreases |mask|
  {
    best :| best in mask;
    if mask != {best} {
      var rest := Largest(mask - {best}, measure);
      assert forall m :: m in mask ==> m == best || m in mask - {best};
      if measure(rest) > measure(best) {
        best := rest;
      }
    }
  }

  predicate ExactLoss(v: Value) {
    v.bound == Some(Exact) && v.outcome == Some(Loss)
  }

  ghost predicate LongerLoss(r: Records, mask: Mask, k: Move, m: Move) {
    k in mask && ExactLoss(r.value(k)) && r.value(k).distance > r.value(m).distance
  }

  /** An exact loss while another one takes longer. */
  ghost predicate Outlived(r: Records, mask: Mask, m: Move) {
    ExactLoss(r.value(m)) && exists k :: LongerLoss(r, mask, k, m)
  }

  /** Of the exact losses only the longest stay. */
  ghost function LongestLosses(r: Records, mask: Mask): (kept: Mask)
    ensures kept <= mask
  {
    set m | m in mask && !Outlived(r, mask, m)
  }

  ghost function Losses(r: Records, mask: Mask): Mask {
    set m | m in mask && ExactLoss(r.value(m))
  }

  method CountLosses(r: Records, mask: Mask) returns (count: nat, longest: nat)
    requires OnlyMoves(mask)
    ensures count == |Losses(r, mask)|
    ensures forall m :: m in Losses(r, mask) ==> r.value(m).distance <= longest
    ensures longest == 0 || exists m :: m in Losses(r, mask) && r.value(m).distance == longest
  {
    hide UpTo, ExactLoss;
    count, longest := 0, 0;
    for d := 0 to 4
      invariant count == |Losses(r, UpTo(mask, d))|
      invariant forall m :: m in Losses(r, UpTo(mask, d)) ==> r.value(m).distance <= longest
      invariant longest == 0 || exists m :: m in Losses(r, UpTo(mask, d)) && r.value(m).distance == longest
    {
      var move := DIRECTIONS[d];
      UpToNext(mask, d);
      if move in mask && ExactLoss(r.value(move)) {
        assert Losses(r, UpTo(mask, d + 1)) == Losses(r, UpTo(mask, d)) + {move};
        count := count + 1;
        if r.value(move).distance > longest {
          longest := r.value(move).distance;
        }
      } else {
        assert Losses(r, UpTo(mask, d + 1)) == Losses(r, UpTo(mask, d));
      }
    }
  }

  method KeepLongestLosses(r: Records, mask: Mask) returns (kept: Mask)
    requires OnlyMoves(mask)
    ensures kept == LongestLosses(r, mask)
  {
    var count, longest := CountLosses(r, mask);
    if count < 2 {
      FewLosses(r, mask);
      return mask;
    }
    kept := mask;
    for d := 0 to 4
      invariant kept == set m | m in mask && !(m in UpTo(mask, d) && ExactLoss(r.value(m)) && r.value(m).distance < longest)
    {
      var move := DIRECTIONS[d];
      UpToNext(mask, d);
      if move in mask && ExactLoss(r.value(move)) && r.value(move).distance < longest {
        kept := kept - {move};
      }
    }
    LongestIs(r, mask, longest);
  }

  lemma LongestIs(r: Records, mask: Mask, longest: nat)
    requires forall m :: m in Losses(r, mask) ==> r.value(m).distance <= longest
    requires longest == 0 || exists m :: m in Losses(r, mask) && r.value(m).distance == longest
    ensures forall m :: m in mask ==> (Outlived(r, mask, m) <==> ExactLoss(r.value(m)) && r.value(m).distance < longest)
  {
    forall m | m in mask ensures Outlived(r, mask, m) <==> ExactLoss(r.value(m)) && r.value(m).distance < longest {
      if ExactLoss(r.value(m)) && r.value(m).distance < longest {
        var k :| k in Losses(r, mask) && r.value(k).distance == longest;
        assert LongerLoss(r, mask, k, m);
      }
      if Outlived(r, mask, m) {
        var k :| LongerLoss(r, mask, k, m);
        assert k in Losses(r, mask);
      }
    }
  }

  lemma FewLosses(r: Records, mask: Mask)
    requires |Losses(r, mask)| < 2
    ensures LongestLosses(r, mask) == mask
  {
    forall m | m in mask ensures !Outlived(r, mask, m) {
      if Outlived(r, mask, m) {
        var k :| LongerLoss(r, mask, k, m);
        assert {k, m} <= Losses(r, mask);
        Counting.SubsetCount({k, m}, Losses(r, mask));
      }
    }
  }

  lemma LossLayerKeepsSome(r: Records, mask: Mask)
    requires mask != {}
    ensures LongestLosses(r, mask) != {}
  {
    var best: Move :| best in mask;
    if Losses(r, mask) != {} {
      best := Largest(Losses(r, mask), m => r.value(m).distance as real);
      forall k | k in Losses(r, mask) ensures r.value(k).distance <= r.value(best).distance {
        assert r.value(k).distance as real <= r.value(best).distance as real;
      }
    } else {
      assert best !in Losses(r, mask);
    }
    assert !Outlived(r, mask, best);
    assert best in LongestLosses(r, mask);
  }

  /** The moves left by the layers of the ladder up to the one with the given number. */
  ghost function Ladder(r: Records, valid: Mask, n: nat): (mask: Mask)
    requires n <= 5
    ensures mask <= valid
  {
    if n == 0 then valid
    else if n == 1 then Undominated(r, ByOutcome, Ladder(r, valid, 0))
    else if n == 2 then Undominated(r, ByStructure(true), Ladder(r, valid, 1))
    else if n == 3 then LongestLosses(r, Ladder(r, valid, 2))
    else if n == 4 then Undominated(r, ByNumber, Ladder(r, valid, 3))
    else Undominated(r, ByStructure(false), Ladder(r, valid, 4))
  }

  lemma LadderLayers(r: Records, valid: Mask)
    ensures Ladder(r, valid, 0) == valid
    ensures Ladder(r, valid, 1) == Undominated(r, ByOutcome, valid)
    ensures Ladder(r, valid, 2) == Undominated(r, ByStructure(true), Ladder(r, valid, 1))
    ensures Ladder(r, valid, 3) == LongestLosses(r, Ladder(r, valid, 2))
    ensures Ladder(r, valid, 4) == Undominated(r, ByNumber, Ladder(r, valid, 3))
    ensures Ladder(r, valid, 5) == Undominated(r, ByStructure(false), Ladder(r, valid, 4))
  {}

  /** No layer ever removes the last move. */
  lemma {:induction false} LadderKeepsSome(r: Records, valid: Mask, n: nat)
    requires valid != {} && n <= 5
    ensures Ladder(r, valid, n) != {}
  {
    hide Undominated, LongestLosses;
    if n > 0 {
      LadderKeepsSome(r, valid, n - 1);
      var mask := Ladder(r, valid, n - 1);
      if n == 3 {
        LossLayerKeepsSome(r, mask);
      } else {
        LayerKeepsSome(r, if n == 1 then ByOutcome else if n == 4 then ByNumber else ByStructure(n == 2), mask);
      }
    }
  }

  lemma {:induction false} LadderShrinks(r: Records, valid: Mask, n: nat, k: nat)
    requires n <= k <= 5
    ensures Ladder(r, valid, k) <= Ladder(r, valid, n)
  {
    if n < k {
      LadderShrinks(r, valid, n, k - 1);
    }
  }

  /**
   A move left by the ladder is not outcome-dominated by any valid move, nor structurally by
   one that survives the outcome layer with both values unresolved.
   */
  lemma LadderWinner(r: Records, valid: Mask, m: Move)
    requires m in Ladder(r, valid, 5)
    ensures m in valid
    ensures forall c :: c in valid ==> c == m || !OutcomeDominates(r, c, m)
    ensures forall c :: c in Ladder(r, valid, 1) && r.value(c).outcome == Some(Unresolved) && r.value(m).outcome == Some(Unresolved) ==>
      c == m || !StructureDominates(r.stats(c), r.stats(m))
    ensures forall c :: c in Ladder(r, valid, 2) && ExactLoss(r.value(c)) && ExactLoss(r.value(m)) ==>
      r.value(c).distance <= r.value(m).distance
    ensures forall c :: c in Ladder(r, valid, 3) ==> c == m || !NumericDominates(r, c, m)
  {
    LadderShrinks(r, valid, 1, 5);
    LadderShrinks(r, valid, 2, 5);
    LadderShrinks(r, valid, 3, 5);
    LadderShrinks(r, valid, 4, 5);
    hide StructureDominates, NumericDominates;
    forall c | c in valid && c != m ensures !OutcomeDominates(r, c, m) {
      assert !Dominated(r, ByOutcome, valid, m) && !Dominates(r, ByOutcome, c, m);
    }
    forall c | c in Ladder(r, valid, 1) && r.value(c).outcome == Some(Unresolved) && r.value(m).outcome == Some(Unresolved) && c != m
      ensures !StructureDominates(r.stats(c), r.stats(m))
    {
      assert !Dominated(r, ByStructure(true), Ladder(r, valid, 1), m) && !Dominates(r, ByStructure(true), c, m);
    }
    forall c | c in Ladder(r, valid, 2) && ExactLoss(r.value(c)) && ExactLoss(r.value(m))
      ensures r.value(c).distance <= r.value(m).distance
    {
      assert !Outlived(r, Ladder(r, valid, 2), m) && !LongerLoss(r, Ladder(r, valid, 2), c, m);
    }
    forall c | c in Ladder(r, valid, 3) && c != m ensures !NumericDominates(r, c, m) {
      assert !Dominated(r, ByNumber, Ladder(r, valid, 3), m) && !Dominates(r, ByNumber, c, m);
    }
  }

  /** A move pairwise beaten on outcomes cannot win. */
  lemma WinnerSurvivesDuels(r: Records, valid: Mask, m: Move, c: Move)
    requires m in Ladder(r, valid, 5) && c in valid
    ensures CompareRootCandidates(r.value(c), r.stats(c), r.value(m), r.stats(m)).ordering != Candidate
         || CompareRootCandidates(r.value(c), r.stats(c), r.value(m), r.stats(m)).reason !in {TerminalOutcome, SearchBound}
  {
    LadderWinner(r, valid, m);
  }
}

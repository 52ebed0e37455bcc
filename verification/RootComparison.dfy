/**
 Comparing two root moves: outcome intervals first, then structural proofs, survival
 distance and finite scores. The comparison is antisymmetric but goes round in circles.
 */
module RootComparison {
  import opened Limits
  import opened Optional
  import opened Outcomes

  /** Finite doubles. */
  type Finite = r: real | -DBL_MAX <= r <= DBL_MAX witness 0.0

  datatype Score = Number(value: Finite) | PlusInfinity | MinusInfinity | NotANumber

  datatype Proof = NotAnalyzed | Safe | Unsafe | Unknown | UndefinedProof

  /** None stands for a stored number that names no outcome or bound. */
  datatype Value = Value(score: Score, outcome: Option<Outcome>, distance: nat, cause: nat, bound: Option<Bound>)

  datatype Stats = Stats(trapStatus: int, trapHorizon: int, proof: Proof, cutoff: int, horizon: int, structuralCapacity: int,
                         closureConsidered: bool, length: int, capacity: int, refutation: int)

  datatype Ordering = Incumbent | Equal | Candidate | Incomparable

  datatype Reason =
    | NotCompared | TerminalOutcome | SearchBound | StructuralProof | TerminalSurvival | HeuristicValue
    | StructuralTiebreak | PreviousPv | StableDirection | NumericValue

  datatype Comparison = Comparison(ordering: Ordering, reason: Reason)

  function Rank(o: Option<Outcome>): int {
    if o == Some(Win) then 3 else if o == Some(Draw) then 2 else if o == Some(Loss) then 0 else 1
  }

  /** The worst outcome the value still allows. */
  function LowerRank(v: Value): int {
    if v.bound == Some(UpperBound) then 0 else Rank(v.outcome)
  }

  /** The best outcome the value still allows. */
  function UpperRank(v: Value): int {
    if v.bound == Some(LowerBound) then 3 else Rank(v.outcome)
  }

  predicate IsFinite(s: Score) { s.Number? }

  /** Equality of doubles: not a number differs from everything, itself included. */
  predicate SameScore(a: Score, b: Score) { a != NotANumber && a == b }

  predicate Deficient(s: Stats) {
    s.proof == Unknown && (s.length <= 0 || s.capacity < s.length)
  }

  predicate StructureDominates(c: Stats, i: Stats) {
    c.proof == Safe && (i.proof == Unsafe || Deficient(i))
  }

  predicate ValuesEqual(a: Value, b: Value) {
    SameScore(a.score, b.score) && a.outcome == b.outcome && a.distance == b.distance && a.cause == b.cause && a.bound == b.bound
  }

  function ScorePreference(c: Score, i: Score): Ordering {
    if IsFinite(c) && !IsFinite(i) then Candidate
    else if !IsFinite(c) && IsFinite(i) then Incumbent
    else if !IsFinite(c) then Incomparable
    else if c.value > i.value then Candidate
    else if c.value < i.value then Incumbent
    else Equal
  }

  predicate Defined(v: Value, s: Stats) {
    v.outcome.Some? && v.bound.Some? && s.proof != UndefinedProof
  }

  function BoundReason(c: Value, i: Value): Reason {
    if c.bound == Some(Exact) && i.bound == Some(Exact) then TerminalOutcome else SearchBound
  }

  function EqualOrIncomparable(cv: Value, cs: Stats, iv: Value, s: Stats): Comparison {
    Comparison(if ValuesEqual(cv, iv) && cs == s then Equal else Incomparable, NotCompared)
  }

  function CompareRootCandidates(cv: Value, cs: Stats, iv: Value, s: Stats): Comparison {
    var sameInterval := LowerRank(cv) == LowerRank(iv) && UpperRank(cv) == UpperRank(iv);
    if !Defined(cv, cs) || !Defined(iv, s) then Comparison(Incomparable, NotCompared)
    else if !sameInterval && LowerRank(cv) > UpperRank(iv) then Comparison(Candidate, BoundReason(cv, iv))
    else if !sameInterval && LowerRank(iv) > UpperRank(cv) then Comparison(Incumbent, BoundReason(cv, iv))
    else if !sameInterval then Comparison(Incomparable, SearchBound)
    else if !(cv.bound == Some(Exact) && iv.bound == Some(Exact) && cv.outcome == iv.outcome) then EqualOrIncomparable(cv, cs, iv, s)
    else if cv.outcome == Some(Unresolved) && StructureDominates(cs, s) then Comparison(Candidate, StructuralProof)
    else if cv.outcome == Some(Unresolved) && StructureDominates(s, cs) then Comparison(Incumbent, StructuralProof)
    else if cv.outcome == Some(Loss) && cv.distance > iv.distance then Comparison(Candidate, TerminalSurvival)
    else if cv.outcome == Some(Loss) && cv.distance < iv.distance then Comparison(Incumbent, TerminalSurvival)
    else if cv.outcome == Some(Unresolved) && ScorePreference(cv.score, iv.score) in {Candidate, Incumbent} then
      Comparison(ScorePreference(cv.score, iv.score), HeuristicValue)
    else EqualOrIncomparable(cv, cs, iv, s)
  }

  function Flipped(o: Ordering): Ordering {
    match o
    case Candidate => Incumbent
    case Incumbent => Candidate
    case Equal => Equal
    case Incomparable => Incomparable
  }

  /** Exchanging the two moves reverses the verdict and keeps its reason. */
  lemma CompareAntisymmetric(cv: Value, cs: Stats, iv: Value, s: Stats)
    ensures var there, back := CompareRootCandidates(cv, cs, iv, s), CompareRootCandidates(iv, s, cv, cs);
            back.ordering == Flipped(there.ordering) && back.reason == there.reason
  {}

  /** Only indistinguishable records are equal, and a record equals itself unless its score is no number. */
  lemma EqualMeansSame(cv: Value, cs: Stats, iv: Value, s: Stats)
    ensures CompareRootCandidates(cv, cs, iv, s).ordering == Equal <==>
      Defined(cv, cs) && Defined(iv, s) && cv == iv && cs == s && cv.score != NotANumber
  {}

  ghost predicate Beats(cv: Value, cs: Stats, iv: Value, s: Stats) {
    CompareRootCandidates(cv, cs, iv, s).ordering == Candidate
  }

  /** Three moves may beat each other in a circle, so picking the winner of pairwise duels is not enough. */
  lemma ComparisonHasCycle() returns (v1: Value, s1: Stats, v2: Value, s2: Stats, v3: Value, s3: Stats)
    ensures Beats(v1, s1, v2, s2) && Beats(v2, s2, v3, s3) && Beats(v3, s3, v1, s1)
  {
    v1 := Value(Number(0.0), Some(Unresolved), 0, 0, Some(Exact));
    v2 := v1.(score := Number(2.0));
    v3 := v1.(score := Number(1.0));
    s1 := Stats(0, 0, Safe, 0, 0, 0, false, 3, 3, 0);
    s2 := s1.(proof := Unsafe);
    s3 := s1.(proof := Unknown);
  }
}

/**
 From the records of the search to the move chosen: what truthful flags are worth to the
 selection of a root move.
 */
module RootDecisions {
  import opened Grid
  import opened Boards
  import opened Limits
  import opened Optional
  import opened Outcomes
  import opened ForcedLoss
  import opened GameTrees
  import opened Minimax
  import AlphaBeta
  import opened RootComparison
  import opened RootSelection
  import opened RootFallback

  /** The stored value is the one the search recorded. */
  ghost predicate Stores(v: Value, record: AlphaBeta.Value) {
    && v.score.Number? && v.score.value == record.score
    && v.outcome == Some(record.outcome) && v.distance == record.distance && v.bound == Some(record.bound)
  }

  ghost predicate StoresAll(r: Records, tried: seq<Move>, records: seq<AlphaBeta.Value>) {
    |tried| == |records| && forall i :: 0 <= i < |tried| ==> Stores(r.value(tried[i]), records[i])
  }

  /** The move forces exactly the scores up to v. */
  ghost predicate ForcesExactly(u: Game, b: Board, depth: nat, m: Move, v: real)
    requires depth > 0
  {
    forall x :: MoveForces(u, b, depth, 0, m, x) <==> x <= v
  }

  /** A finished search of a board whose decided positions keep their scores. */
  ghost predicate Searched(u: Game, b: Board, depth: nat, value: AlphaBeta.Value, tried: seq<Move>,
                           records: seq<AlphaBeta.Value>) {
    && depth > 0 && (forall v :: CanForce(u, b, depth, 0, v) <==> v <= value.score)
    && AlphaBeta.Attained(records, value.score) && TruthfulRecords(u, b, depth, tried, records)
  }

  /** An exact move with the best score is an optimal one. */
  lemma ExactBestIsOptimal(u: Game, b: Board, depth: nat, r: Records, value: AlphaBeta.Value, tried: seq<Move>,
                           records: seq<AlphaBeta.Value>, i: nat)
    requires Searched(u, b, depth, value, tried, records) && StoresAll(r, tried, records) && i < |tried|
    requires r.value(tried[i]).bound == Some(Exact) && r.value(tried[i]).score == Number(value.score)
    ensures ForcesExactly(u, b, depth, tried[i], value.score)
  {
    hide MoveForces, CanForce;
    assert Stores(r.value(tried[i]), records[i]) && Truthful(u, b, depth, tried[i], records[i]);
  }

  /** The moves that the outcome, structure and score layers leave to the tie-breaks. */
  ghost function Finalists(ladder: bool, r: Records, valid: Mask): Mask {
    if ladder then Ladder(r, valid, 5) else StrictMaxima(r, valid)
  }

  /** No stage before the fallback removes a finalist, and every later choice is one. */
  lemma FinalistsStay(ladder: bool, r: Records, s: Surroundings, valid: Mask, i: nat)
    requires valid != {} && OnlyMoves(valid) && i < (if ladder then 6 else 2)
    ensures var stages := Stages(ladder, r, s, valid);
            && |stages| == (if ladder then 12 else 8)
            && stages[if ladder then 5 else 1].mask == Finalists(ladder, r, valid) <= stages[i].mask
  {
    hide Ladder, StrictMaxima, FallbackStages;
    StagesShape(r, valid);
    StagesNarrow(ladder, r, s, valid);
    FallbackShape(r, s, Finalists(ladder, r, valid));
    EarlierContains(Stages(ladder, r, s, valid), valid, i, if ladder then 5 else 1);
  }

  lemma FallbackShape(r: Records, s: Surroundings, mask: Mask)
    ensures |FallbackStages(r, s, mask)| == 6
  {}

  lemma ChoiceIsFinalist(ladder: bool, r: Records, s: Surroundings, valid: Mask, choice: Selection)
    requires valid != {} && OnlyMoves(valid) && Chosen(Stages(ladder, r, s, valid), choice)
    ensures choice.move in Finalists(ladder, r, valid) && Finalists(ladder, r, valid) <= valid
  {
    hide Chosen, Stages;
    FinalistsStay(ladder, r, s, valid, 0);
    StagesNarrow(ladder, r, s, valid);
    ChosenSurvives(Stages(ladder, r, s, valid), valid, choice, if ladder then 5 else 1);
    FirstStage(ladder, r, s, valid);
  }

  lemma FirstStage(ladder: bool, r: Records, s: Surroundings, valid: Mask)
    ensures |Stages(ladder, r, s, valid)| > 0 && Stages(ladder, r, s, valid)[0].mask == valid
  {
    hide Ladder, StrictMaxima, FallbackStages;
    StagesShape(r, valid);
  }

  /** Nothing is constrained, and the move has the most space. */
  function Favouring(m: Move): Surroundings {
    Surroundings(false, false, _ => None, _ => 0, m, x => if x == m then 1 else 0, m, [])
  }

  /** A stage down to one move that all stages before still contain makes that move the choice. */
  lemma {:induction false} SingleIsChosen(stages: seq<Stage>, k: nat, m: Move) returns (choice: Selection)
    requires k < |stages| && stages[k].mask == {m} && forall j :: 0 <= j <= k ==> m in stages[j].mask
    ensures Chosen(stages, choice) && choice.move == m
  {
    if j :| 0 <= j < k && |stages[j].mask| == 1 {
      assert stages[j].mask == {m} by {
        OnlyOne(stages[j].mask, m);
      }
      choice := SingleIsChosen(stages, j, m);
    } else {
      choice := Selection(m, stages[k].reason);
      assert ChosenAt(stages, choice, k);
    }
  }

  lemma OnlyOne(mask: Mask, m: Move)
    requires |mask| == 1 && m in mask
    ensures mask == {m}
  {
    assert |mask - {m}| == 0;
  }

  /** Every finalist is the choice in some surroundings. */
  lemma FinalistMayWin(ladder: bool, r: Records, valid: Mask, m: Move) returns (choice: Selection)
    requires valid != {} && OnlyMoves(valid) && m in Finalists(ladder, r, valid)
    ensures Chosen(Stages(ladder, r, Favouring(m), valid), choice) && choice.move == m
  {
    hide Chosen, Finalists, LadderStages, StrictStages, FallbackStages;
    var s, stages := Favouring(m), Stages(ladder, r, Favouring(m), valid);
    var last := if ladder then 5 else 1;
    FinalistsStay(ladder, r, s, valid, 0);
    UnconstrainedFallback(ladder, r, valid, m);
    forall j | 0 <= j <= last + 4 ensures m in stages[j].mask {
      if j <= last {
        FinalistsStay(ladder, r, s, valid, j);
      }
    }
    choice := SingleIsChosen(stages, last + 4, m);
  }

  lemma UnconstrainedFallback(ladder: bool, r: Records, valid: Mask, m: Move)
    requires valid != {} && OnlyMoves(valid) && m in Finalists(ladder, r, valid)
    ensures var stages, last, f := Stages(ladder, r, Favouring(m), valid), if ladder then 5 else 1, Finalists(ladder, r, valid);
            && |stages| > last + 4 && stages[last + 4].mask == {m}
            && stages[last + 1].mask == stages[last + 2].mask == stages[last + 3].mask == f
  {
    hide Ladder, StrictMaxima, AllLosses;
    StagesShape(r, valid);
    var s, f := Favouring(m), Finalists(ladder, r, valid);
    var fallback := FallbackStages(r, s, f);
    assert !Constrained(r, s, f);
    assert Best(f, s.reachable) == {m};
    assert fallback[3].mask == {m};
    var stages, last := Stages(ladder, r, s, valid), if ladder then 5 else 1;
    assert stages[last + 1] == fallback[0] && stages[last + 2] == fallback[1] && stages[last + 3] == fallback[2];
    assert stages[last + 4] == fallback[3];
  }

  function ScoreOf(v: Value): real {
    if v.score.Number? then v.score.value else 0.0
  }

  /** No other record has a higher score. */
  ghost predicate HighScore(r: Records, valid: Mask, m: Move) {
    m in valid && forall k :: k in valid ==> ScoreOf(r.value(k)) <= ScoreOf(r.value(m))
  }

  /** Numeric records, exact or upper bounds, the highest score being attained by an exact one. */
  ghost predicate FromSearch(r: Records, valid: Mask) {
    && (forall m :: m in valid ==> r.value(m).score.Number? && r.value(m).bound in {Some(Exact), Some(UpperBound)})
    && (exists m :: HighScore(r, valid, m) && r.value(m).bound == Some(Exact))
  }

  /** What the moves are worth agrees with their records. */
  ghost predicate Agrees(r: Records, valid: Mask, worth: Move -> real) {
    forall m :: m in valid ==>
      && (r.value(m).bound == Some(Exact) ==> worth(m) == ScoreOf(r.value(m)))
      && (r.value(m).bound == Some(UpperBound) ==> worth(m) <= ScoreOf(r.value(m)))
  }

  ghost predicate Optimal(valid: Mask, worth: Move -> real, m: Move) {
    m in valid && forall k :: k in valid ==> worth(k) <= worth(m)
  }

  /** Every finalist is recorded exactly, with the highest score. */
  ghost predicate ExactFinalists(ladder: bool, r: Records, valid: Mask) {
    forall m :: m in Finalists(ladder, r, valid) ==> r.value(m).bound == Some(Exact) && HighScore(r, valid, m)
  }

  /** An exact finalist of the highest score is worth most, and any other may be worth less than the best. */
  lemma WorthLess(r: Records, valid: Mask, m: Move) returns (worth: Move -> real)
    requires FromSearch(r, valid) && m in valid && !(r.value(m).bound == Some(Exact) && HighScore(r, valid, m))
    ensures Agrees(r, valid, worth) && !Optimal(valid, worth, m)
  {
    var e :| HighScore(r, valid, e) && r.value(e).bound == Some(Exact);
    worth := x => if x == m && r.value(x).bound != Some(Exact) then ScoreOf(r.value(x)) - 1.0 else ScoreOf(r.value(x));
    assert worth(m) < worth(e);
  }

  /**
   The selection is optimal in all surroundings, and for everything that the moves may be worth
   according to their records, exactly when all finalists are recorded exactly with the highest score.
   */
  lemma OptimalExactly(ladder: bool, r: Records, valid: Mask)
    requires valid != {} && OnlyMoves(valid) && FromSearch(r, valid)
    ensures ExactFinalists(ladder, r, valid) <==>
      forall s: Surroundings, choice: Selection, worth: Move -> real ::
        Chosen(Stages(ladder, r, s, valid), choice) && Agrees(r, valid, worth) ==> Optimal(valid, worth, choice.move)
  {
    hide Chosen, Stages, Finalists, FromSearch, Agrees, Optimal;
    if ExactFinalists(ladder, r, valid) {
      forall s: Surroundings, choice: Selection, worth: Move -> real |
        Chosen(Stages(ladder, r, s, valid), choice) && Agrees(r, valid, worth)
        ensures Optimal(valid, worth, choice.move)
      {
        ChoiceIsFinalist(ladder, r, s, valid, choice);
        ExactIsOptimal(r, valid, worth, choice.move);
      }
    } else {
      var m :| m in Finalists(ladder, r, valid) && !(r.value(m).bound == Some(Exact) && HighScore(r, valid, m));
      var choice := FinalistMayWin(ladder, r, valid, m);
      ChoiceIsFinalist(ladder, r, Favouring(m), valid, choice);
      var worth := WorthLess(r, valid, m);
    }
  }

  lemma ExactIsOptimal(r: Records, valid: Mask, worth: Move -> real, m: Move)
    requires FromSearch(r, valid) && Agrees(r, valid, worth) && HighScore(r, valid, m) && r.value(m).bound == Some(Exact)
    ensures Optimal(valid, worth, m)
  {}

  /** Under strict minimax the finalists have the highest score, so only their flags matter. */
  lemma StrictFinalists(r: Records, valid: Mask)
    requires FromSearch(r, valid)
    ensures StrictMaxima(r, valid) == set m | m in valid && HighScore(r, valid, m)
    ensures ExactFinalists(false, r, valid) <==> forall m :: m in StrictMaxima(r, valid) ==> r.value(m).bound == Some(Exact)
  {
    var e :| HighScore(r, valid, e) && r.value(e).bound == Some(Exact);
    assert !Unnumbered(r, valid);
    forall m | m in valid ensures m in StrictMaxima(r, valid) <==> HighScore(r, valid, m) {}
  }

  /** What a finished search records is such a set of records. */
  lemma SearchedRecords(u: Game, b: Board, depth: nat, r: Records, value: AlphaBeta.Value, tried: seq<Move>,
                        records: seq<AlphaBeta.Value>)
    requires Searched(u, b, depth, value, tried, records) && StoresAll(r, tried, records)
    ensures var valid := set m | m in tried;
            && valid != {} && FromSearch(r, valid)
            && forall m :: HighScore(r, valid, m) <==> m in valid && ScoreOf(r.value(m)) == value.score
  {
    hide MoveForces, CanForce;
    var valid := set m | m in tried;
    var j :| 0 <= j < |records| && records[j].bound == Exact && records[j].score == value.score;
    assert Stores(r.value(tried[j]), records[j]) && tried[j] in valid;
    forall m | m in valid
      ensures r.value(m).score.Number? && r.value(m).bound in {Some(Exact), Some(UpperBound)}
      ensures ScoreOf(r.value(m)) <= value.score
    {
      var i :| 0 <= i < |tried| && tried[i] == m;
      assert Stores(r.value(m), records[i]) && Truthful(u, b, depth, tried[i], records[i]);
    }
    assert HighScore(r, valid, tried[j]);
  }

  /**
   The choice on the board. Under strict minimax it is recorded with the most that can be forced, and
   in both modes it forces that much when all finalists are exact with the highest score, or when it
   is itself.
   */
  lemma RootDecision(u: Game, b: Board, depth: nat, ladder: bool, r: Records, s: Surroundings, value: AlphaBeta.Value,
                     tried: seq<Move>, records: seq<AlphaBeta.Value>, choice: Selection)
    requires Searched(u, b, depth, value, tried, records) && StoresAll(r, tried, records)
    requires var valid := set m | m in tried; OnlyMoves(valid) && Chosen(Stages(ladder, r, s, valid), choice)
    ensures choice.move in tried && (!ladder ==> ScoreOf(r.value(choice.move)) == value.score)
    ensures ExactFinalists(ladder, r, set m | m in tried) ==> ForcesExactly(u, b, depth, choice.move, value.score)
    ensures r.value(choice.move).bound == Some(Exact) && ScoreOf(r.value(choice.move)) == value.score ==>
      ForcesExactly(u, b, depth, choice.move, value.score)
  {
    hide Chosen, Stages, MoveForces, CanForce, ForcesExactly, Truthful, FromSearch, Ladder, StrictMaxima;
    var valid := set m | m in tried;
    SearchedRecords(u, b, depth, r, value, tried, records);
    ChoiceIsFinalist(ladder, r, s, valid, choice);
    if !ladder {
      StrictFinalists(r, valid);
    }
    var i: nat :| i < |tried| && tried[i] == choice.move;
    assert Stores(r.value(tried[i]), records[i]);
    if r.value(choice.move).bound == Some(Exact) && ScoreOf(r.value(choice.move)) == value.score {
      ExactBestIsOptimal(u, b, depth, r, value, tried, records, i);
    }
  }

  /**
   With the ladder, an exact choice is optimal whenever an exact move of the best score is still in
   play when scores are compared.
   */
  lemma LadderDecision(u: Game, b: Board, depth: nat, r: Records, s: Surroundings, value: AlphaBeta.Value, tried: seq<Move>,
                       records: seq<AlphaBeta.Value>, choice: Selection, j: nat)
    requires Searched(u, b, depth, value, tried, records) && StoresAll(r, tried, records)
    requires var valid := set m | m in tried; OnlyMoves(valid) && Chosen(Stages(true, r, s, valid), choice)
    requires j < |tried| && records[j].bound == Exact && records[j].score == value.score
    requires tried[j] in Ladder(r, set m | m in tried, 3) && r.value(choice.move).bound == Some(Exact)
    ensures choice.move in tried && ForcesExactly(u, b, depth, choice.move, value.score)
  {
    hide Chosen, Stages, MoveForces, CanForce, ForcesExactly, Truthful, Ladder;
    var valid := set m | m in tried;
    assert tried[j] in valid;
    LadderChoice(r, s, valid, choice);
    LadderWinner(r, valid, choice.move);
    var i: nat :| i < |tried| && tried[i] == choice.move;
    assert Stores(r.value(tried[i]), records[i]) && Stores(r.value(tried[j]), records[j]);
    assert records[i].score <= value.score;
    assert choice.move == tried[j] || !NumericDominates(r, tried[j], choice.move);
    ExactBestIsOptimal(u, b, depth, r, value, tried, records, i);
  }

  /** The stored values bound what the moves force, and tell it when they are exact. */
  ghost predicate TruthfulStore(u: Game, b: Board, depth: nat, r: Records, valid: Mask)
    requires depth > 0
  {
    && FromSearch(r, valid)
    && forall m :: m in valid ==>
         && (forall x :: MoveForces(u, b, depth, 0, m, x) ==> x <= ScoreOf(r.value(m)))
         && (r.value(m).bound == Some(Exact) ==> ForcesExactly(u, b, depth, m, ScoreOf(r.value(m))))
  }

  lemma StoreIsTruthful(u: Game, b: Board, depth: nat, r: Records, value: AlphaBeta.Value, tried: seq<Move>,
                        records: seq<AlphaBeta.Value>)
    requires Searched(u, b, depth, value, tried, records) && StoresAll(r, tried, records)
    ensures TruthfulStore(u, b, depth, r, set m | m in tried)
  {
    hide MoveForces, CanForce;
    SearchedRecords(u, b, depth, r, value, tried, records);
    forall m | m in tried
      ensures forall x :: MoveForces(u, b, depth, 0, m, x) ==> x <= ScoreOf(r.value(m))
      ensures r.value(m).bound == Some(Exact) ==> ForcesExactly(u, b, depth, m, ScoreOf(r.value(m)))
    {
      var i :| 0 <= i < |tried| && tried[i] == m;
      assert Stores(r.value(m), records[i]) && Truthful(u, b, depth, tried[i], records[i]);
    }
  }

  /** The index of the record of a move, or the number of records. */
  function RecordOf(tried: seq<Move>, n: nat, m: Move): (i: nat)
    requires n <= |tried|
    ensures i <= n && (i < n ==> tried[i] == m) && forall j :: 0 <= j < i ==> tried[j] != m
  {
    if n == 0 then 0
    else
      var i := RecordOf(tried, n - 1, m);
      if i < n - 1 then i else if tried[n - 1] == m then n - 1 else n
  }

  /** A score as a double. */
  function Rounded(x: real): Score {
    if x > DBL_MAX then PlusInfinity else if x < -DBL_MAX then MinusInfinity else Number(x)
  }

  /** What is kept of a record; a move without one is unresolved. */
  function Kept(tried: seq<Move>, records: seq<AlphaBeta.Value>, m: Move): Value
    requires |records| <= |tried|
  {
    var i := RecordOf(tried, |records|, m);
    if i < |records| then
      Value(Rounded(records[i].score), Some(records[i].outcome), records[i].distance, 0, Some(records[i].bound))
    else Value(Number(0.0), Some(Unresolved), 0, 0, Some(Exact))
  }

  function KeptAll(tried: seq<Move>, records: seq<AlphaBeta.Value>, stats: Move -> Stats): Records
    requires |records| <= |tried|
  {
    Records(m => Kept(tried, records, m), stats)
  }

  lemma KeepingStores(tried: seq<Move>, records: seq<AlphaBeta.Value>, stats: Move -> Stats)
    requires |tried| == |records| && forall i, j :: 0 <= i < j < |tried| ==> tried[i] != tried[j]
    requires forall i :: 0 <= i < |records| ==> AlphaBeta.IsFinite(records[i].score)
    ensures StoresAll(KeptAll(tried, records, stats), tried, records)
  {
    forall i | 0 <= i < |tried| ensures Stores(Kept(tried, records, tried[i]), records[i]) {
      var k := RecordOf(tried, |records|, tried[i]);
      assert k == i;
    }
  }

  lemma DistinctMoves(moves: seq<Move>, all: seq<Move>)
    requires multiset(moves) <= multiset(all) && forall m :: multiset(all)[m] <= 1
    ensures forall i, j :: 0 <= i < j < |moves| ==> moves[i] != moves[j]
  {
    forall i, j | 0 <= i < j < |moves| ensures moves[i] != moves[j] {
      if moves[i] == moves[j] {
        CountedTwice(moves, i, j);
      }
    }
  }

  lemma CountedTwice(moves: seq<Move>, i: nat, j: nat)
    requires i < j < |moves| && moves[i] == moves[j]
    ensures multiset(moves)[moves[i]] >= 2
  {
    assert moves == moves[..i] + [moves[i]] + moves[i + 1..j] + [moves[j]] + moves[j + 1..];
  }

  /**
   The decision at the root: the search, then the selection from its records. The value returned is
   that of the selected move. On boards whose decided positions keep their scores it is, under
   strict minimax, the most that can be forced; and in both modes the move forces that much when
   all finalists are exact with the highest score.
   */
  method DecideRoot(u: Game, o: Policy, b: Board, depth: nat, ladder: bool, stats: Move -> Stats, s: Surroundings)
    returns (status: Status, choice: Option<Selection>, value: AlphaBeta.Value, r: Records)
    requires Reorders(o) && depth > 0 && u.rootMoves != []
    requires forall m :: multiset(u.rootMoves)[m] <= 1 && (m in u.rootMoves ==> m in DIRECTIONS)
    ensures NeverInterrupted(o) && |b.snakes| <= 15 ==> status == Done
    ensures status == Done && Settled(u, b, depth, 0) && Classify(b, u.me, u.opponent) == Unresolved ==>
      && TruthfulStore(u, b, depth, r, set m | m in u.rootMoves)
      && choice.Some? && Chosen(Stages(ladder, r, s, set m | m in u.rootMoves), choice.value)
      && choice.value.move in u.rootMoves && Stores(r.value(choice.value.move), value)
      && (!ladder ==> forall v :: CanForce(u, b, depth, 0, v) <==> v <= value.score)
      && (ExactFinalists(ladder, r, set m | m in u.rootMoves) ==>
            && (forall v :: CanForce(u, b, depth, 0, v) <==> v <= value.score)
            && ForcesExactly(u, b, depth, choice.value.move, value.score))
  {
    hide Settled, Classify, CanForce, ForcesExactly, MoveForces, Chosen, Stages, KeptAll, ExactFinalists, TruthfulStore;
    var tried, records;
    status, value, tried, records := SearchRoot(u, o, b, depth);
    choice, r := None, KeptAll([], [], stats);
    if status == Done && |records| <= |tried| {
      r := KeptAll(tried, records, stats);
      ghost var best := value;
      var valid := set m | m in tried[..|records|];
      TriedAreRoots(u, tried, records);
      choice := SelectRootCandidate(ladder, r, s, valid);
      if choice.Some? {
        var i := RecordOf(tried, |records|, choice.value.move);
        if i < |records| {
          value := records[i];
        }
      }
      if Settled(u, b, depth, 0) && Classify(b, u.me, u.opponent) == Unresolved {
        DecisionIsSound(u, b, depth, ladder, stats, s, best, tried, records, choice);
      }
    }
  }

  lemma TriedAreRoots(u: Game, tried: seq<Move>, records: seq<AlphaBeta.Value>)
    requires multiset(tried) <= multiset(u.rootMoves) && |records| <= |tried|
    requires forall m :: m in u.rootMoves ==> m in DIRECTIONS
    ensures OnlyMoves(set m | m in tried[..|records|])
  {
    forall m | m in tried ensures m in u.rootMoves {
      assert m in multiset(tried);
      assert m in multiset(u.rootMoves);
    }
  }

  lemma DecisionIsSound(u: Game, b: Board, depth: nat, ladder: bool, stats: Move -> Stats, s: Surroundings,
                        best: AlphaBeta.Value, tried: seq<Move>, records: seq<AlphaBeta.Value>, choice: Option<Selection>)
    requires Searched(u, b, depth, best, tried, records) && multiset(tried) <= multiset(u.rootMoves)
    requires forall m :: multiset(u.rootMoves)[m] <= 1 && (m in u.rootMoves ==> m in DIRECTIONS)
    requires var r, valid := KeptAll(tried, records, stats), set m | m in tried[..|records|];
             (choice.None? <==> valid == {}) && (choice.Some? ==> Chosen(Stages(ladder, r, s, valid), choice.value))
    ensures var r, roots := KeptAll(tried, records, stats), set m | m in u.rootMoves;
            && TruthfulStore(u, b, depth, r, roots)
            && choice.Some? && Chosen(Stages(ladder, r, s, roots), choice.value) && choice.value.move in u.rootMoves
            && var i := RecordOf(tried, |records|, choice.value.move);
            && i < |records| && Stores(r.value(choice.value.move), records[i])
            && (!ladder ==> records[i].score == best.score)
            && (ExactFinalists(ladder, r, roots) ==>
                  records[i].score == best.score && ForcesExactly(u, b, depth, choice.value.move, records[i].score))
  {
    hide CanForce, ForcesExactly, MoveForces, Chosen, Stages, Truthful, TruthfulStore, AlphaBeta.Attained, FromSearch, HighScore;
    var r, roots := KeptAll(tried, records, stats), set m | m in u.rootMoves;
    assert tried[..|records|] == tried;
    assert roots == set m | m in tried;
    DistinctMoves(tried, u.rootMoves);
    KeepingStores(tried, records, stats);
    SearchedRecords(u, b, depth, r, best, tried, records);
    StoreIsTruthful(u, b, depth, r, best, tried, records);
    ChoiceIsFinalist(ladder, r, s, roots, choice.value);
    RootDecision(u, b, depth, ladder, r, s, best, tried, records, choice.value);
    var i := RecordOf(tried, |records|, choice.value.move);
    assert Stores(r.value(tried[i]), records[i]);
  }
}

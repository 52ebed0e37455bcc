/**
 The selection of a root move as a whole: the ladder or the strict maxima, then the
 fallback layers, and the reason recorded for the choice.
 */
module RootFallback {
  import opened Grid
  import opened Boards
  import opened Optional
  import opened Outcomes
  import opened RootComparison
  import opened RootSelection

  /** a is a larger double than b. */
  predicate Above(a: Score, b: Score) {
    match a
    case Number(x) => b.MinusInfinity? || (b.Number? && x > b.value)
    case PlusInfinity => b.MinusInfinity? || b.Number?
    case MinusInfinity => false
    case NotANumber => false
  }

  ghost predicate Unnumbered(r: Records, mask: Mask) {
    forall m :: m in mask ==> r.value(m).score == NotANumber
  }

  /** The moves of the largest score; all of them when no score is a number. */
  ghost function StrictMaxima(r: Records, mask: Mask): (kept: Mask)
    ensures kept <= mask
  {
    if Unnumbered(r, mask) then mask
    else set m | m in mask && r.value(m).score != NotANumber && forall k :: k in mask ==> !Above(r.value(k).score, r.value(m).score)
  }

  method KeepStrictMaxima(r: Records, mask: Mask) returns (kept: Mask)
    requires OnlyMoves(mask)
    ensures kept == StrictMaxima(r, mask)
  {
    hide UpTo;
    var maximum: Option<Score> := None;
    for d := 0 to 4
      invariant maximum.None? ==> Unnumbered(r, UpTo(mask, d))
      invariant maximum.Some? ==> maximum.value != NotANumber
      invariant maximum.Some? ==> forall m :: m in UpTo(mask, d) ==> !Above(r.value(m).score, maximum.value)
      invariant maximum.Some? ==> exists m :: m in mask && r.value(m).score == maximum.value
    {
      var move := DIRECTIONS[d];
      UpToNext(mask, d);
      if move in mask && r.value(move).score != NotANumber {
        if maximum.None? || Above(r.value(move).score, maximum.value) {
          maximum := Some(r.value(move).score);
        }
      }
    }
    if maximum.None? {
      return mask;
    }
    kept := mask;
    for d := 0 to 4
      invariant kept == set m | m in mask && !(m in UpTo(mask, d) && r.value(m).score != maximum.value)
    {
      var move := DIRECTIONS[d];
      UpToNext(mask, d);
      if move in mask && (r.value(move).score == NotANumber || r.value(move).score != maximum.value) {
        kept := kept - {move};
      }
    }
  }

  /** The moves for which the key is largest. */
  ghost function Best(mask: Mask, key: Move -> int): (kept: Mask)
    ensures kept <= mask
  {
    set m | m in mask && forall k :: k in mask ==> key(k) <= key(m)
  }

  method KeepBest(mask: Mask, key: Move -> int) returns (kept: Mask)
    requires OnlyMoves(mask)
    ensures kept == Best(mask, key)
  {
    hide UpTo;
    var largest: Option<int> := None;
    for d := 0 to 4
      invariant largest.None? ==> UpTo(mask, d) == {}
      invariant largest.Some? ==>
        (forall m :: m in UpTo(mask, d) ==> key(m) <= largest.value) && exists m :: m in mask && key(m) == largest.value
    {
      var move := DIRECTIONS[d];
      UpToNext(mask, d);
      if move in mask && (largest.None? || key(move) > largest.value) {
        largest := Some(key(move));
      }
    }
    kept := mask;
    for d := 0 to 4
      invariant kept == set m | m in mask && !(m in UpTo(mask, d) && largest.Some? && key(m) < largest.value)
    {
      var move := DIRECTIONS[d];
      UpToNext(mask, d);
      if move in mask && largest.Some? && key(move) < largest.value {
        kept := kept - {move};
      }
    }
  }

  /** More exits, then fewer forced steps, then more space. */
  predicate MetricsBetter(a: Metrics, b: Metrics) {
    if a.exits != b.exits then a.exits > b.exits
    else if a.forced != b.forced then a.forced < b.forced
    else a.reachable > b.reachable
  }

  ghost predicate Measured(mask: Mask, corridor: Move -> Option<Metrics>) {
    forall m :: m in mask ==> corridor(m).Some?
  }

  /** The moves with the best corridors; all of them when one cannot be measured. */
  ghost function BestCorridors(mask: Mask, corridor: Move -> Option<Metrics>): (kept: Mask)
    ensures kept <= mask
  {
    if !Measured(mask, corridor) then mask
    else set m | m in mask && forall k :: k in mask ==> !MetricsBetter(corridor(k).value, corridor(m).value)
  }

  method KeepBestCorridors(mask: Mask, corridor: Move -> Option<Metrics>) returns (kept: Mask)
    requires OnlyMoves(mask)
    ensures kept == BestCorridors(mask, corridor)
  {
    hide UpTo;
    var best: Option<Metrics> := None;
    for d := 0 to 4
      invariant Measured(UpTo(mask, d), corridor)
      invariant best.None? ==> UpTo(mask, d) == {}
      invariant best.Some? ==> forall m :: m in UpTo(mask, d) ==> !MetricsBetter(corridor(m).value, best.value)
      invariant best.Some? ==> exists m :: m in mask && corridor(m) == best
    {
      var move := DIRECTIONS[d];
      UpToNext(mask, d);
      if move in mask {
        if corridor(move).None? {
          return mask;
        }
        if best.None? || MetricsBetter(corridor(move).value, best.value) {
          best := corridor(move);
        }
      }
    }
    kept := mask;
    for d := 0 to 4
      invariant kept == set m | m in mask && !(m in UpTo(mask, d) && corridor(m) != best)
    {
      var move := DIRECTIONS[d];
      UpToNext(mask, d);
      if move in mask && corridor(move) != best {
        kept := kept - {move};
      }
    }
  }

  /** A favoured move wins outright when it is still in play. */
  function Narrowed(mask: Mask, m: Move): Mask {
    if m in mask then {m} else mask
  }

  /** The first move of the list that is in the mask, if any. */
  function FirstIn(order: seq<Move>, mask: Mask): (r: Option<Move>)
    ensures r.Some? ==> r.value in mask
    ensures r.None? <==> forall k :: 0 <= k < |order| ==> order[k] !in mask
  {
    if order == [] then None else if order[0] in mask then Some(order[0]) else FirstIn(order[1..], mask)
  }

  function Stable(order: seq<Move>, mask: Mask): Mask {
    var m := FirstIn(order, mask);
    var d := FirstIn(DIRECTIONS, mask);
    if m.Some? then {m.value} else if d.Some? then {d.value} else mask
  }

  ghost predicate AllLosses(r: Records, mask: Mask) {
    forall m :: m in mask ==> r.value(m).outcome == Some(Loss)
  }

  ghost predicate AllExact(r: Records, mask: Mask) {
    forall m :: m in mask ==> r.value(m).bound == Some(Exact)
  }

  ghost predicate AllUnresolved(r: Records, mask: Mask) {
    forall m :: m in mask ==> r.value(m).outcome == Some(Unresolved)
  }

  /** Why the only maximum won under strict minimax. */
  ghost function StrictReason(r: Records, mask: Mask, winner: Move): Reason {
    if !AllExact(r, mask) then SearchBound
    else if AllUnresolved(r, mask) then HeuristicValue
    else if AllLosses(r, mask) then
      (if exists m :: m in mask && m != winner && r.value(winner).distance <= r.value(m).distance then NumericValue else TerminalSurvival)
    else if forall m :: m in mask && m != winner ==> Rank(r.value(winner).outcome) > Rank(r.value(m).outcome) then TerminalOutcome
    else NumericValue
  }

  /** A set of moves still in play, and the reason recorded when it is down to one. */
  datatype Stage = Stage(mask: Mask, reason: Reason)

  ghost function LadderStages(r: Records, valid: Mask): seq<Stage> {
    [Stage(valid, NotCompared),
     Stage(Ladder(r, valid, 1), if AllExact(r, valid) then TerminalOutcome else SearchBound),
     Stage(Ladder(r, valid, 2), StructuralProof),
     Stage(Ladder(r, valid, 3), TerminalSurvival),
     Stage(Ladder(r, valid, 4), if AllExact(r, Ladder(r, valid, 3)) && AllUnresolved(r, Ladder(r, valid, 3)) then HeuristicValue else SearchBound),
     Stage(Ladder(r, valid, 5), StructuralProof)]
  }

  ghost function StrictStages(r: Records, valid: Mask): seq<Stage> {
    var kept := StrictMaxima(r, valid);
    [Stage(valid, NotCompared),
     Stage(kept, if exists m :: kept == {m} then (var m :| kept == {m}; StrictReason(r, valid, m)) else NotCompared)]
  }

  ghost predicate Constrained(r: Records, s: Surroundings, mask: Mask) {
    s.lengthConstrained || (AllLosses(r, mask) && s.spaceConstrained)
  }

  /** The fallback after the given mask. */
  ghost function FallbackStages(r: Records, s: Surroundings, mask: Mask): seq<Stage> {
    var losing, constrained := AllLosses(r, mask), Constrained(r, s, mask);
    var corridor := if constrained && losing then BestCorridors(mask, s.corridor) else mask;
    var tail := if constrained then Best(corridor, m => s.tailPath(m)) else corridor;
    var heading := if constrained && losing then Narrowed(tail, s.heading) else tail;
    var space := Best(heading, s.reachable);
    var preferred := Narrowed(space, s.preferred);
    [Stage(corridor, StructuralTiebreak), Stage(tail, StructuralTiebreak), Stage(heading, StructuralTiebreak),
     Stage(space, StructuralTiebreak), Stage(preferred, PreviousPv), Stage(Stable(s.order, preferred), StableDirection)]
  }

  /** The choice is the only move of the first stage that leaves one move, for that stage's reason. */
  ghost predicate Chosen(stages: seq<Stage>, choice: Selection) {
    exists i :: 0 <= i < |stages| && ChosenAt(stages, choice, i)
  }

  ghost predicate ChosenAt(stages: seq<Stage>, choice: Selection, i: nat)
    requires i < |stages|
  {
    stages[i] == Stage({choice.move}, choice.reason) && forall j :: 0 <= j < i ==> |stages[j].mask| != 1
  }

  /** Every stage keeps part of the one before, and something. */
  ghost predicate Narrowing(stages: seq<Stage>, start: Mask) {
    forall i :: 0 <= i < |stages| ==> stages[i].mask != {} && stages[i].mask <= MaskBefore(stages, start, i)
  }

  ghost function MaskBefore(stages: seq<Stage>, start: Mask, i: nat): Mask
    requires i <= |stages|
  {
    if i == 0 then start else stages[i - 1].mask
  }

  ghost function Stages(ladder: bool, r: Records, s: Surroundings, valid: Mask): seq<Stage> {
    var upper := if ladder then LadderStages(r, valid) else StrictStages(r, valid);
    upper + FallbackStages(r, s, upper[|upper| - 1].mask)
  }

  lemma BestKeepsSome(mask: Mask, key: Move -> int)
    requires mask != {}
    ensures Best(mask, key) != {}
  {
    var best := Largest(mask, m => key(m) as real);
    forall k | k in mask ensures key(k) <= key(best) {
      assert key(k) as real <= key(best) as real;
    }
    assert best in Best(mask, key);
  }

  lemma {:induction false} BestCorridorsKeepSome(mask: Mask, corridor: Move -> Option<Metrics>)
    requires mask != {}
    ensures BestCorridors(mask, corridor) != {}
    decreases |mask|
  {
    if Measured(mask, corridor) {
      var m :| m in mask;
      if mask == {m} {
        assert m in BestCorridors(mask, corridor);
      } else {
        var rest := mask - {m};
        BestCorridorsKeepSome(rest, corridor);
        var k :| k in BestCorridors(rest, corridor);
        assert forall x :: x in mask ==> x == m || x in rest;
        var best := if MetricsBetter(corridor(m).value, corridor(k).value) then m else k;
        assert best in BestCorridors(mask, corridor);
      }
    }
  }

  lemma {:induction false} StrictMaximaKeepSome(r: Records, mask: Mask)
    requires mask != {}
    ensures StrictMaxima(r, mask) != {}
    decreases |mask|
  {
    if !Unnumbered(r, mask) {
      var m :| m in mask && r.value(m).score != NotANumber;
      var rest := mask - {m};
      var best := m;
      if rest != {} {
        StrictMaximaKeepSome(r, rest);
        var k :| k in StrictMaxima(r, rest);
        if r.value(k).score != NotANumber && Above(r.value(k).score, r.value(m).score) {
          best := k;
        }
      }
      assert forall x :: x in mask ==> x == m || x in rest;
      assert best in StrictMaxima(r, mask);
    }
  }

  /** Along all stages the moves in play get fewer, but never run out. */
  lemma StagesNarrow(ladder: bool, r: Records, s: Surroundings, valid: Mask)
    requires valid != {} && OnlyMoves(valid)
    ensures Narrowing(Stages(ladder, r, s, valid), valid)
  {
    hide LadderStages, FallbackStages;
    var upper := if ladder then LadderStages(r, valid) else StrictStages(r, valid);
    if ladder {
      LadderNarrows(r, valid);
    } else {
      StrictMaximaKeepSome(r, valid);
    }
    NarrowedToLast(upper, valid, |upper| - 1);
    FallbackNarrows(r, s, upper[|upper| - 1].mask);
    NarrowingAppends(upper, FallbackStages(r, s, upper[|upper| - 1].mask), valid);
  }

  lemma {:induction false} NarrowedToLast(stages: seq<Stage>, start: Mask, i: nat)
    requires Narrowing(stages, start) && i < |stages|
    ensures stages[i].mask != {} && stages[i].mask <= start
  {
    if i > 0 {
      NarrowedToLast(stages, start, i - 1);
      assert stages[i].mask <= MaskBefore(stages, start, i) == stages[i - 1].mask;
    }
    assert stages[i].mask <= MaskBefore(stages, start, i);
  }

  lemma NarrowingAppends(a: seq<Stage>, b: seq<Stage>, start: Mask)
    requires a != [] && Narrowing(a, start) && Narrowing(b, a[|a| - 1].mask)
    ensures Narrowing(a + b, start)
  {
    var all := a + b;
    forall i | 0 <= i < |all| ensures all[i].mask != {} && all[i].mask <= MaskBefore(all, start, i) {
      if i < |a| {
        assert a[i].mask <= MaskBefore(a, start, i);
      } else {
        var k := i - |a|;
        assert all[i] == b[k] && b[k].mask <= MaskBefore(b, a[|a| - 1].mask, k);
      }
    }
  }

  lemma LadderNarrows(r: Records, valid: Mask)
    requires valid != {}
    ensures |LadderStages(r, valid)| == 6 && Narrowing(LadderStages(r, valid), valid)
  {
    hide Ladder, AllExact, AllUnresolved;
    var stages := LadderStages(r, valid);
    forall i | 0 <= i < |stages|
      ensures stages[i].mask != {} && stages[i].mask <= MaskBefore(stages, valid, i)
    {
      LadderLayers(r, valid);
      LadderKeepsSome(r, valid, i);
      assert stages[i].mask == Ladder(r, valid, i);
    }
  }

  lemma FallbackNarrows(r: Records, s: Surroundings, mask: Mask)
    requires mask != {} && OnlyMoves(mask)
    ensures Narrowing(FallbackStages(r, s, mask), mask)
  {
    hide Best, BestCorridors, Narrowed, Stable, AllLosses, Constrained;
    var stages := FallbackStages(r, s, mask);
    BestCorridorsKeepSome(mask, s.corridor);
    assert stages[0].mask != {} && stages[0].mask <= mask;
    BestKeepsSome(stages[0].mask, m => s.tailPath(m));
    assert stages[1].mask != {} && stages[1].mask <= stages[0].mask;
    NarrowedKeeps(stages[1].mask, s.heading);
    assert stages[2].mask != {} && stages[2].mask <= stages[1].mask;
    BestKeepsSome(stages[2].mask, s.reachable);
    assert stages[3].mask != {} && stages[3].mask <= stages[2].mask;
    NarrowedKeeps(stages[3].mask, s.preferred);
    assert stages[4].mask != {} && stages[4].mask <= stages[3].mask;
    StableIsSingle(s.order, stages[4].mask);
    assert stages[5].mask != {} && stages[5].mask <= stages[4].mask;
  }

  /** The choice lies in every stage. */
  lemma ChosenSurvives(stages: seq<Stage>, start: Mask, choice: Selection, k: nat)
    requires Narrowing(stages, start) && Chosen(stages, choice) && k < |stages|
    ensures choice.move in stages[k].mask
  {
    var i :| 0 <= i < |stages| && ChosenAt(stages, choice, i);
    if k <= i {
      EarlierContains(stages, start, k, i);
    } else {
      EarlierContains(stages, start, i, k);
      var m :| m in stages[k].mask;
      assert m in stages[i].mask;
    }
  }

  lemma {:induction false} EarlierContains(stages: seq<Stage>, start: Mask, i: nat, k: nat)
    requires Narrowing(stages, start) && i <= k < |stages|
    ensures stages[k].mask <= stages[i].mask
  {
    if i < k {
      EarlierContains(stages, start, i, k - 1);
      assert stages[k].mask <= MaskBefore(stages, start, k);
    }
  }

  /** The guarantees of the choice when the ladder is used. */
  lemma LadderChoice(r: Records, s: Surroundings, valid: Mask, choice: Selection)
    requires valid != {} && OnlyMoves(valid) && Chosen(Stages(true, r, s, valid), choice)
    ensures choice.move in Ladder(r, valid, 5)
    ensures forall c :: c in valid ==> c == choice.move || !OutcomeDominates(r, c, choice.move)
    ensures forall c :: c in Ladder(r, valid, 1) && r.value(c).outcome == Some(Unresolved) && r.value(choice.move).outcome == Some(Unresolved) ==>
      c == choice.move || !StructureDominates(r.stats(c), r.stats(choice.move))
  {
    StagesNarrow(true, r, s, valid);
    ChosenSurvives(Stages(true, r, s, valid), valid, choice, 5);
    LadderWinner(r, valid, choice.move);
  }

  /** Under strict minimax no valid move scores higher. */
  lemma StrictChoice(r: Records, s: Surroundings, valid: Mask, choice: Selection)
    requires valid != {} && OnlyMoves(valid) && Chosen(Stages(false, r, s, valid), choice)
    ensures choice.move in valid
    ensures forall c :: c in valid ==> !Above(r.value(c).score, r.value(choice.move).score)
    ensures Unnumbered(r, valid) || r.value(choice.move).score != NotANumber
  {
    StagesNarrow(false, r, s, valid);
    ChosenSurvives(Stages(false, r, s, valid), valid, choice, 1);
  }

  method Finalize(mask: Mask, reason: Reason) returns (choice: Option<Selection>)
    requires OnlyMoves(mask)
    ensures choice.Some? <==> |mask| == 1
    ensures choice.Some? ==> mask == {choice.value.move} && choice.value.reason == reason
  {
    if |mask| != 1 {
      return None;
    }
    ghost var only :| only in mask;
    assert mask == {only} by {
      assert |mask - {only}| == 0;
    }
    var d := 0;
    while DIRECTIONS[d] !in mask
      invariant 0 <= d < 4 && exists k :: d <= k < 4 && DIRECTIONS[k] == only
      decreases 4 - d
    {
      d := d + 1;
    }
    choice := Some(Selection(DIRECTIONS[d], reason));
  }

  /** None of the stages before n is down to one move. */
  ghost predicate Undecided(stages: seq<Stage>, n: nat) {
    n <= |stages| && forall j :: 0 <= j < n ==> |stages[j].mask| != 1
  }

  lemma Decided(stages: seq<Stage>, i: nat, choice: Selection)
    requires Undecided(stages, i) && i < |stages| && stages[i] == Stage({choice.move}, choice.reason)
    ensures Chosen(stages, choice)
  {
    assert ChosenAt(stages, choice, i);
  }

  /** Whether the values of the mask are all exact, or all exact and unresolved. */
  method ExactUnresolved(r: Records, mask: Mask) returns (exact: bool, unresolved: bool)
    requires OnlyMoves(mask)
    ensures exact <==> AllExact(r, mask)
    ensures unresolved <==> AllUnresolved(r, mask)
  {
    hide UpTo;
    exact, unresolved := true, true;
    for d := 0 to 4
      invariant exact <==> AllExact(r, UpTo(mask, d))
      invariant unresolved <==> AllUnresolved(r, UpTo(mask, d))
    {
      var move := DIRECTIONS[d];
      UpToNext(mask, d);
      if move in mask {
        exact := exact && r.value(move).bound == Some(Exact);
        unresolved := unresolved && r.value(move).outcome == Some(Unresolved);
      }
    }
  }

  method ClimbLadder(r: Records, valid: Mask) returns (choice: Option<Selection>, mask: Mask)
    requires OnlyMoves(valid) && |valid| != 1
    ensures choice.Some? ==> Chosen(LadderStages(r, valid), choice.value)
    ensures choice.None? ==> mask == Ladder(r, valid, 5) && Undecided(LadderStages(r, valid), 6)
  {
    hide Chosen, Ladder, Undominated, LongestLosses, AllExact, AllUnresolved;
    LadderLayers(r, valid);
    ghost var stages := LadderStages(r, valid);
    assert |stages[0].mask| != 1;
    var exact, unresolved := ExactUnresolved(r, valid);
    mask := RemoveDominated(r, ByOutcome, valid);
    choice := Finalize(mask, if exact then TerminalOutcome else SearchBound);
    assert stages[1].mask == mask;
    if choice.Some? {
      Decided(stages, 1, choice.value);
      return;
    }
    mask := RemoveDominated(r, ByStructure(true), mask);
    choice := Finalize(mask, StructuralProof);
    assert stages[2].mask == mask;
    if choice.Some? {
      Decided(stages, 2, choice.value);
      return;
    }
    mask := KeepLongestLosses(r, mask);
    choice := Finalize(mask, TerminalSurvival);
    assert stages[3].mask == mask;
    if choice.Some? {
      Decided(stages, 3, choice.value);
      return;
    }
    exact, unresolved := ExactUnresolved(r, mask);
    mask := RemoveDominated(r, ByNumber, mask);
    choice := Finalize(mask, if exact && unresolved then HeuristicValue else SearchBound);
    assert stages[4].mask == mask;
    if choice.Some? {
      Decided(stages, 4, choice.value);
      return;
    }
    mask := RemoveDominated(r, ByStructure(false), mask);
    choice := Finalize(mask, StructuralProof);
    assert stages[5].mask == mask;
    if choice.Some? {
      Decided(stages, 5, choice.value);
    }
  }

  /** The strict maxima; alone, a maximum wins for the reason the other values give. */
  method TakeMaxima(r: Records, valid: Mask) returns (choice: Option<Selection>, mask: Mask)
    requires OnlyMoves(valid) && |valid| != 1
    ensures choice.Some? ==> Chosen(StrictStages(r, valid), choice.value)
    ensures choice.None? ==> mask == StrictMaxima(r, valid) && Undecided(StrictStages(r, valid), 2)
  {
    hide Chosen, StrictMaxima, StrictReason;
    ghost var stages := StrictStages(r, valid);
    mask := KeepStrictMaxima(r, valid);
    assert stages[1].mask == mask && |stages[0].mask| != 1;
    choice := Finalize(mask, NotCompared);
    if choice.Some? {
      var winner := choice.value.move;
      var reason := SingletonReason(r, valid, winner);
      assert forall m :: mask == {m} ==> m in mask;
      choice := Some(Selection(winner, reason));
      Decided(stages, 1, choice.value);
    }
  }

  method SingletonReason(r: Records, mask: Mask, winner: Move) returns (reason: Reason)
    requires OnlyMoves(mask)
    ensures reason == StrictReason(r, mask, winner)
  {
    var exact, unresolved := ExactUnresolved(r, mask);
    if !exact {
      return SearchBound;
    }
    var losses, best, longest := true, true, true;
    for d := 0 to 4
      invariant losses <==> AllLosses(r, UpTo(mask, d))
      invariant best <==> forall m :: m in UpTo(mask, d) && m != winner ==> Rank(r.value(winner).outcome) > Rank(r.value(m).outcome)
      invariant longest <==> !exists m :: m in UpTo(mask, d) && m != winner && r.value(winner).distance <= r.value(m).distance
    {
      var move := DIRECTIONS[d];
      UpToNext(mask, d);
      if move in mask {
        losses := losses && r.value(move).outcome == Some(Loss);
        best := best && (move == winner || Rank(r.value(winner).outcome) > Rank(r.value(move).outcome));
        longest := longest && (move == winner || r.value(winner).distance > r.value(move).distance);
      }
    }
    if unresolved {
      return HeuristicValue;
    }
    if losses {
      return if longest then TerminalSurvival else NumericValue;
    }
    return if best then TerminalOutcome else NumericValue;
  }

  method LossesOnly(r: Records, mask: Mask) returns (losing: bool)
    requires OnlyMoves(mask)
    ensures losing <==> AllLosses(r, mask)
  {
    hide UpTo;
    losing := true;
    for d := 0 to 4
      invariant losing <==> AllLosses(r, UpTo(mask, d))
    {
      var move := DIRECTIONS[d];
      UpToNext(mask, d);
      losing := losing && (move !in mask || r.value(move).outcome == Some(Loss));
    }
  }

  lemma NarrowedKeeps(mask: Mask, m: Move)
    ensures Narrowed(mask, m) <= mask && (mask != {} ==> Narrowed(mask, m) != {})
  {}

  lemma StableIsSingle(order: seq<Move>, mask: Mask)
    requires mask != {} && OnlyMoves(mask)
    ensures |Stable(order, mask)| == 1 && Stable(order, mask) <= mask
  {
    var m :| m in mask;
    var k :| 0 <= k < 4 && DIRECTIONS[k] == m;
  }

  /** The fallback layers; they always end with a choice. */
  method FallBack(r: Records, s: Surroundings, start: Mask) returns (choice: Selection)
    requires OnlyMoves(start) && start != {} && |start| != 1
    ensures Chosen(FallbackStages(r, s, start), choice)
  {
    hide Chosen, BestCorridors, Best, Stable, Narrowed, AllLosses;
    ghost var stages := FallbackStages(r, s, start);
    var result: Option<Selection>;
    var losing := LossesOnly(r, start);
    var constrained := s.lengthConstrained || (losing && s.spaceConstrained);
    var mask := start;
    if constrained && losing {
      mask := KeepBestCorridors(mask, s.corridor);
      result := Finalize(mask, StructuralTiebreak);
      if result.Some? {
        Decided(stages, 0, result.value);
        return result.value;
      }
    }
    assert stages[0].mask == mask && Undecided(stages, 1);
    if constrained {
      mask := KeepBest(mask, m => s.tailPath(m));
      result := Finalize(mask, StructuralTiebreak);
      assert stages[1].mask == mask;
      if result.Some? {
        Decided(stages, 1, result.value);
        return result.value;
      }
    }
    assert stages[1].mask == mask && Undecided(stages, 2);
    if constrained && losing {
      NarrowedKeeps(mask, s.heading);
      mask := Narrowed(mask, s.heading);
      result := Finalize(mask, StructuralTiebreak);
      if result.Some? {
        Decided(stages, 2, result.value);
        return result.value;
      }
    }
    assert stages[2].mask == mask && Undecided(stages, 3);
    choice := FallBackFurther(r, s, start, mask);
  }

  /** The layers every selection may come to: space, the preferred move, the stable order. */
  method FallBackFurther(r: Records, s: Surroundings, ghost start: Mask, left: Mask) returns (choice: Selection)
    requires OnlyMoves(start) && start != {} && OnlyMoves(left)
    requires left == FallbackStages(r, s, start)[2].mask && Undecided(FallbackStages(r, s, start), 3)
    ensures Chosen(FallbackStages(r, s, start), choice)
  {
    hide Chosen, BestCorridors, Best, Stable, Narrowed, AllLosses;
    ghost var stages := FallbackStages(r, s, start);
    FallbackNarrows(r, s, start);
    var mask := KeepBest(left, s.reachable);
    var result := Finalize(mask, StructuralTiebreak);
    assert stages[3].mask == mask;
    if result.Some? {
      Decided(stages, 3, result.value);
      return result.value;
    }
    NarrowedKeeps(mask, s.preferred);
    mask := Narrowed(mask, s.preferred);
    result := Finalize(mask, PreviousPv);
    assert stages[4].mask == mask;
    if result.Some? {
      Decided(stages, 4, result.value);
      return result.value;
    }
    StableIsSingle(s.order, mask);
    mask := Stable(s.order, mask);
    result := Finalize(mask, StableDirection);
    assert stages[5].mask == mask;
    Decided(stages, 5, result.value);
    return result.value;
  }

  lemma ChosenAbove(a: seq<Stage>, b: seq<Stage>, choice: Selection)
    requires Chosen(a, choice)
    ensures Chosen(a + b, choice)
  {
    var i :| 0 <= i < |a| && ChosenAt(a, choice, i);
    assert ChosenAt(a + b, choice, i);
  }

  lemma ChosenBelow(a: seq<Stage>, b: seq<Stage>, choice: Selection)
    requires Undecided(a, |a|) && Chosen(b, choice)
    ensures Chosen(a + b, choice)
  {
    var i :| 0 <= i < |b| && ChosenAt(b, choice, i);
    assert ChosenAt(a + b, choice, |a| + i);
  }

  /** The selection: whenever a root is valid, the first stage down to one move decides. */
  method SelectRootCandidate(ladder: bool, r: Records, s: Surroundings, valid: Mask) returns (choice: Option<Selection>)
    requires OnlyMoves(valid)
    ensures choice.None? <==> valid == {}
    ensures choice.Some? ==> Chosen(Stages(ladder, r, s, valid), choice.value)
  {
    hide Chosen, LadderStages, StrictStages, FallbackStages;
    if valid == {} {
      return None;
    }
    StagesShape(r, valid);
    choice := Finalize(valid, NotCompared);
    ghost var upper := if ladder then LadderStages(r, valid) else StrictStages(r, valid);
    ghost var lower := FallbackStages(r, s, upper[|upper| - 1].mask);
    if choice.Some? {
      Decided(upper, 0, choice.value);
      ChosenAbove(upper, lower, choice.value);
      return;
    }
    var mask;
    if ladder {
      choice, mask := ClimbLadder(r, valid);
      LadderKeepsSome(r, valid, 5);
    } else {
      choice, mask := TakeMaxima(r, valid);
      StrictMaximaKeepSome(r, valid);
    }
    if choice.Some? {
      ChosenAbove(upper, lower, choice.value);
      return;
    }
    var last := FallBack(r, s, mask);
    ChosenBelow(upper, lower, last);
    choice := Some(last);
  }

  lemma StagesShape(r: Records, valid: Mask)
    ensures |LadderStages(r, valid)| == 6 && |StrictStages(r, valid)| == 2
    ensures LadderStages(r, valid)[0] == StrictStages(r, valid)[0] == Stage(valid, NotCompared)
    ensures LadderStages(r, valid)[5].mask == Ladder(r, valid, 5) && StrictStages(r, valid)[1].mask == StrictMaxima(r, valid)
  {
    hide Ladder, StrictMaxima;
  }
}

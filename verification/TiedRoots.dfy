/**
 A duel on which the selection of a root move goes wrong after a flawless search: the second move
 is cut off at the score of the first, which is recorded as an upper bound, ties with it, and wins
 the tie-break by space although it forces less.
 */
module TiedRoots {
  import opened Grid
  import opened Boards
  import opened Limits
  import opened Optional
  import opened Outcomes
  import opened ForcedLoss
  import opened JointMoves
  import opened GameTrees
  import opened Minimax
  import AlphaBeta
  import opened RootComparison
  import opened RootSelection
  import opened RootFallback
  import opened RootDecisions
  import opened StepDuels

  /** The row of a snake's head. */
  function Row(b: Board, i: nat): int {
    if i < |b.snakes| then b.snakes[i].Head().y else 0
  }

  /** Good when I am in row four, or the rival is. */
  function Height(b: Board): real {
    if Row(b, 0) == 4 || Row(b, 1) == 4 then 1.0 else 0.0
  }

  ghost function Climbing(w: AlphaBeta.Weights): Game {
    Game("a", "b", w, b => Height(b), [Up, Down])
  }

  /** The rival is out of reach, in the same row. */
  function Field(): Board { Duel(Coord(1, 3), Coord(0, 3), Coord(5, 3), 100) }

  ghost function Tree(w: AlphaBeta.Weights): AlphaBeta.Node { Canonical(Climbing(w), Field(), 1, 0) }

  /** What the evaluation says after my move and the k-th of the rival's. */
  function Outlook(own: Move, k: nat): real {
    if own == Up || k == 0 then 1.0 else 0.0
  }

  lemma ClimbingOptions(w: AlphaBeta.Weights, own: Move)
    ensures OptionsFor(Climbing(w), Field(), own) == [[own], DIRECTIONS]
  {
    DuelOptions(w, Coord(1, 3), Coord(0, 3), Coord(5, 3), 100, own);
    assert OptionsFor(Climbing(w), Field(), own) == OptionsFor(Hopeful(w), Field(), own);
  }

  lemma ReplyOutlook(w: AlphaBeta.Weights, own: Move, k: nat)
    requires own in {Up, Down} && k < 4
    ensures var next := After(Field(), [own, DIRECTIONS[k]]);
            Classify(next, "a", "b") == Unresolved && Height(next) == Outlook(own, k)
  {
    hide After;
    DuelResult(Coord(1, 3), Coord(0, 3), Coord(5, 3), 100, own, DIRECTIONS[k]);
  }

  /** The replies to an own move, in the order of enumeration. */
  lemma RootReplies(w: AlphaBeta.Weights, own: Move)
    requires own in {Up, Down}
    ensures var br := CanonicalBranch(Climbing(w), Field(), 1, 0, own);
            && br.move == own && !br.preferred && |br.replies| == 4
            && forall k :: 0 <= k < 4 ==> br.replies[k].node == AlphaBeta.Quiet(Outlook(own, k))
  {
    hide After, OptionsFor, Outlook, CanonicalReplies;
    ClimbingOptions(w, own);
    DuelNumbers(own, 0);
    var replies := CanonicalReplies(Climbing(w), Field(), 1, 0, [[own], DIRECTIONS], 0);
    forall k | 0 <= k < 4 ensures |replies| == 4 && replies[k].node == AlphaBeta.Quiet(Outlook(own, k)) {
      RootReply(w, own, k);
    }
  }

  lemma RootReply(w: AlphaBeta.Weights, own: Move, k: nat)
    requires own in {Up, Down} && k < 4
    ensures var replies := CanonicalReplies(Climbing(w), Field(), 1, 0, [[own], DIRECTIONS], 0);
            |replies| == 4 && replies[k].node == AlphaBeta.Quiet(Outlook(own, k))
  {
    hide After, OptionsFor, Combinations, Decode, Outlook;
    DuelNumbers(own, k);
    ReplyOutlook(w, own, k);
  }

  /** Four quiet replies, looked at until one does not exceed the window's floor. */
  lemma QuietReplies(w: AlphaBeta.Weights, replies: seq<AlphaBeta.Reply>, own: Move, alpha: real)
    requires own in {Up, Down} && |replies| == 4 && alpha <= 1.0 && (own == Up ==> alpha < 1.0) && (own == Down ==> alpha == 1.0)
    requires forall k :: 0 <= k < 4 ==> replies[k].node == AlphaBeta.Quiet(Outlook(own, k))
    ensures AlphaBeta.WorstReply(w, replies, 0, alpha, DBL_MAX, AlphaBeta.Unsettled(DBL_MAX))
         == (AlphaBeta.Unsettled(1.0), own == Down)
  {
    var one := AlphaBeta.Unsettled(1.0);
    assert replies[0].node == AlphaBeta.Quiet(1.0);
    if own == Up {
      assert AlphaBeta.WorstReply(w, replies, 4, alpha, DBL_MAX, one) == (one, false);
      assert AlphaBeta.WorstReply(w, replies, 3, alpha, DBL_MAX, one) == (one, false);
      assert AlphaBeta.WorstReply(w, replies, 2, alpha, DBL_MAX, one) == (one, false);
      assert AlphaBeta.WorstReply(w, replies, 1, alpha, DBL_MAX, one) == (one, false);
    }
  }

  /** The first move is recorded exactly, the second with the same score as an upper bound. */
  function TiedRecords(): seq<AlphaBeta.Value> {
    [AlphaBeta.Unsettled(1.0), AlphaBeta.Unsettled(1.0).(bound := UpperBound)]
  }

  lemma TreeBranches(w: AlphaBeta.Weights)
    ensures Unfolds(Climbing(w), Field(), 1, 0, Tree(w)) && Classify(Field(), "a", "b") == Unresolved
    ensures Tree(w).Choice? && |Tree(w).branches| == 2
    ensures Tree(w).branches[0] == CanonicalBranch(Climbing(w), Field(), 1, 0, Up)
    ensures Tree(w).branches[1] == CanonicalBranch(Climbing(w), Field(), 1, 0, Down)
  {
    hide Classify, CanonicalBranch, BranchUnfolds;
    CanonicalUnfolds(Climbing(w), Field(), 1, 0);
    DuelUnresolved(Coord(1, 3), Coord(0, 3), Coord(5, 3), 100);
    assert OwnMoves(Climbing(w), Field(), 0) == [Up, Down];
  }

  lemma TreeRecords(w: AlphaBeta.Weights)
    ensures Tree(w).Choice? && |Tree(w).branches| == 2
    ensures Tree(w).branches[0].move == Up && Tree(w).branches[1].move == Down
    ensures AlphaBeta.BestMove(w, Tree(w).branches, 0, -DBL_MAX, DBL_MAX, AlphaBeta.Unsettled(-DBL_MAX))
         == (AlphaBeta.Unsettled(1.0), TiedRecords())
  {
    hide Tree, Outlook, CanonicalBranch, AlphaBeta.WorstReply;
    TreeBranches(w);
    RootReplies(w, Up);
    RootReplies(w, Down);
    var branches := Tree(w).branches;
    QuietReplies(w, branches[0].replies, Up, -DBL_MAX);
    QuietReplies(w, branches[1].replies, Down, 1.0);
    TwoMoves(w, branches);
  }

  lemma TwoMoves(w: AlphaBeta.Weights, branches: seq<AlphaBeta.Branch>)
    requires |branches| == 2 && !branches[1].preferred
    requires AlphaBeta.WorstReply(w, branches[0].replies, 0, -DBL_MAX, DBL_MAX, AlphaBeta.Unsettled(DBL_MAX))
          == (AlphaBeta.Unsettled(1.0), false)
    requires AlphaBeta.WorstReply(w, branches[1].replies, 0, 1.0, DBL_MAX, AlphaBeta.Unsettled(DBL_MAX))
          == (AlphaBeta.Unsettled(1.0), true)
    ensures AlphaBeta.BestMove(w, branches, 0, -DBL_MAX, DBL_MAX, AlphaBeta.Unsettled(-DBL_MAX))
         == (AlphaBeta.Unsettled(1.0), TiedRecords())
  {
    hide AlphaBeta.WorstReply;
    var one := AlphaBeta.Unsettled(1.0);
    assert AlphaBeta.BestMove(w, branches, 2, 1.0, DBL_MAX, one) == (one, []);
    assert !AlphaBeta.Replaces(branches[1], one, one);
    assert AlphaBeta.Most(1.0, one.score) == 1.0 < DBL_MAX;
    assert [one.(bound := UpperBound)] + [] == [TiedRecords()[1]];
    assert AlphaBeta.BestMove(w, branches, 1, 1.0, DBL_MAX, one) == (one, [one.(bound := UpperBound)] + []);
    assert AlphaBeta.Most(-DBL_MAX, one.score) == 1.0;
    assert [one] + [TiedRecords()[1]] == TiedRecords();
  }

  /** Nothing on the board is decided, so the search is exact and the records are truthful. */
  lemma FieldIsSettled(w: AlphaBeta.Weights)
    ensures Settled(Climbing(w), Field(), 1, 0)
  {
    hide Classify, After, OptionsFor;
    DuelUnresolved(Coord(1, 3), Coord(0, 3), Coord(5, 3), 100);
    var u := Climbing(w);
    forall m, moves | m in OwnMoves(u, Field(), 0) && IsJoint(OptionsFor(u, Field(), m), moves)
      ensures Settled(u, After(Field(), moves), 0, 1)
    {
      ClimbingOptions(w, m);
      var k :| 0 <= k < 4 && DIRECTIONS[k] == moves[1];
      assert moves == [m, DIRECTIONS[k]];
      ReplyOutlook(w, m, k);
    }
  }

  lemma FieldIsSearched(w: AlphaBeta.Weights)
    ensures Searched(Climbing(w), Field(), 1, AlphaBeta.Unsettled(1.0), [Up, Down], TiedRecords())
  {
    hide Classify, MoveForces, CanForce, AlphaBeta.BestMove, Unfolds, Settled;
    TreeBranches(w);
    TreeRecords(w);
    FieldIsSettled(w);
    var value := AlphaBeta.Search(w, Tree(w), -DBL_MAX, DBL_MAX);
    RootIsTrue(Climbing(w), Field(), 1, Tree(w), value, [Up, Down], TiedRecords());
    assert value.score == 1.0;
  }

  /** The second move does not force what the first one does. */
  lemma DownForcesLess(w: AlphaBeta.Weights)
    ensures !MoveForces(Climbing(w), Field(), 1, 0, Down, 1.0)
  {
    hide Classify, After, OptionsFor;
    ClimbingOptions(w, Down);
    ReplyOutlook(w, Down, 1);
    assert IsJoint(OptionsFor(Climbing(w), Field(), Down), [Down, DIRECTIONS[1]]);
  }

  lemma UpForcesMore(w: AlphaBeta.Weights)
    ensures MoveForces(Climbing(w), Field(), 1, 0, Up, 1.0)
  {
    hide MoveForces, CanForce;
    FieldIsSearched(w);
    assert Truthful(Climbing(w), Field(), 1, [Up, Down][0], TiedRecords()[0]);
  }

  const EVEN: Stats := Stats(0, 0, NotAnalyzed, 0, 0, 0, false, 2, 49, 0)

  /** The records as they are stored, with nothing known about structure. */
  function Stored(): Records {
    Records(m => Value(Number(1.0), Some(Unresolved), 0, 0, Some(if m == Up then Exact else UpperBound)), m => EVEN)
  }

  lemma BothAreFinalists(ladder: bool)
    ensures Finalists(ladder, Stored(), {Up, Down}) == {Up, Down}
  {
    var r, valid := Stored(), {Up, Down};
    if ladder {
      forall relation: Relation, c, i ensures !Dominates(r, relation, c, i) {}
      LadderLayers(r, valid);
      assert Ladder(r, valid, 1) == valid;
      assert Ladder(r, valid, 2) == valid;
      assert Ladder(r, valid, 3) == valid;
      assert Ladder(r, valid, 4) == valid;
    }
  }

  /**
   In both modes, with more space after the second move, every selection from the records of this
   search takes that move, although the search is exact and the first move forces more.
   */
  lemma TieMisleads(w: AlphaBeta.Weights, ladder: bool, choice: Selection)
    requires Chosen(Stages(ladder, Stored(), Favouring(Down), {Up, Down}), choice)
    ensures Unfolds(Climbing(w), Field(), 1, 0, Tree(w)) && Settled(Climbing(w), Field(), 1, 0)
    ensures Searched(Climbing(w), Field(), 1, AlphaBeta.Unsettled(1.0), [Up, Down], TiedRecords())
    ensures StoresAll(Stored(), [Up, Down], TiedRecords())
    ensures choice.move == Down && !MoveForces(Climbing(w), Field(), 1, 0, Down, 1.0)
    ensures MoveForces(Climbing(w), Field(), 1, 0, Up, 1.0)
  {
    hide Chosen, Stages, Tree, Unfolds, MoveForces, CanForce, Settled, Finalists, Searched, Classify;
    TreeBranches(w);
    FieldIsSettled(w);
    FieldIsSearched(w);
    DownForcesLess(w);
    var r, s, valid := Stored(), Favouring(Down), {Up, Down};
    assert Up == DIRECTIONS[0] && Down == DIRECTIONS[1];
    BothAreFinalists(ladder);
    UnconstrainedFallback(ladder, r, valid, Down);
    StagesNarrow(ladder, r, s, valid);
    ChosenSurvives(Stages(ladder, r, s, valid), valid, choice, if ladder then 9 else 5);
    UpForcesMore(w);
  }
}

/**
 The game tree of a board: what the search may visit, in any order of moves and replies,
 and what the snake can force in it, said about boards alone.
 */
module GameTrees {
  import opened Grid
  import opened Boards
  import opened Outcomes
  import opened ForcedLoss
  import opened JointMoves
  import opened Limits
  import opened AlphaBeta
  import SafeMoves

  /** Who plays, how positions are evaluated, and the moves allowed at the root. */
  datatype Game = Game(me: string, opponent: string, weights: Weights, eval: Board -> real, rootMoves: seq<Move>)

  /** The safe moves, or all four when none is safe. */
  ghost function SafeOrAll(b: Board, id: string): seq<Move> {
    var safe := if Alive(b, id) then SafeMoves.SafeDirections(b, id, 4) else [];
    if safe != [] then safe else DIRECTIONS
  }

  ghost function OwnMoves(u: Game, b: Board, ply: nat): seq<Move> {
    if ply == 0 then u.rootMoves else SafeOrAll(b, u.me)
  }

  function OtherMoves(b: Board, id: string): (r: seq<Move>)
    ensures r != []
  {
    if CommandMoves(b, id) == [] then [Invalid] else CommandMoves(b, id)
  }

  /** What each snake may play when the own move is fixed. */
  function OptionsFor(u: Game, b: Board, own: Move): (options: Options)
    ensures |options| == |b.snakes| && forall i :: 0 <= i < |options| ==> options[i] != []
  {
    seq(|b.snakes|, i requires 0 <= i < |b.snakes| =>
      if b.snakes[i].id == u.me then [own] else OtherMoves(b, b.snakes[i].id))
  }

  function Commands(b: Board, moves: seq<Move>): seq<Command>
    requires |moves| == |b.snakes|
  {
    seq(|moves|, i requires 0 <= i < |moves| => Command(b.snakes[i].id, moves[i]))
  }

  ghost function After(b: Board, moves: seq<Move>): Board
    requires |moves| == |b.snakes|
  {
    Step(b, Commands(b, moves))
  }

  /** The position is evaluated as it stands. */
  ghost predicate Ends(u: Game, b: Board, depth: nat, ply: nat) {
    depth == 0 || OwnMoves(u, b, ply) == []
  }

  /** t is the tree of the board, its moves and replies in some order. */
  ghost predicate Unfolds(u: Game, b: Board, depth: nat, ply: nat, t: Node)
    decreases depth, 1
  {
    if Classify(b, u.me, u.opponent) != Unresolved then t == Terminal(Classify(b, u.me, u.opponent))
    else if Ends(u, b, depth, ply) then t == Quiet(u.eval(b))
    else
      && t.Choice?
      && (forall i :: 0 <= i < |t.branches| ==>
           t.branches[i].move in OwnMoves(u, b, ply) && BranchUnfolds(u, b, depth, ply, t.branches[i]))
      && (forall m :: m in OwnMoves(u, b, ply) ==> exists i :: 0 <= i < |t.branches| && t.branches[i].move == m)
  }

  ghost predicate BranchUnfolds(u: Game, b: Board, depth: nat, ply: nat, br: Branch)
    requires depth > 0
    decreases depth, 0
  {
    && (forall k :: 0 <= k < |br.replies| ==> ReplyUnfolds(u, b, depth, ply, br.move, br.replies[k]))
    && (forall moves :: IsJoint(OptionsFor(u, b, br.move), moves) ==>
         exists k :: 0 <= k < |br.replies| && br.replies[k].moves == moves)
  }

  ghost predicate ReplyUnfolds(u: Game, b: Board, depth: nat, ply: nat, own: Move, r: Reply)
    requires depth > 0
    decreases depth - 1, 2
  {
    IsJoint(OptionsFor(u, b, own), r.moves) && Unfolds(u, After(b, r.moves), depth - 1, ply + 1, r.node)
  }

  /**
   The snake can reach a score of at least v within the depth, whatever the others reply. A
   decided position scores as its outcome does that many turns away.
   */
  ghost predicate CanForce(u: Game, b: Board, depth: nat, ply: nat, v: real)
    decreases depth, 1
  {
    var outcome := Classify(b, u.me, u.opponent);
    if outcome != Unresolved then TerminalValue(u.weights, outcome, ply).score >= v
    else if Ends(u, b, depth, ply) then u.eval(b) >= v
    else exists m :: m in OwnMoves(u, b, ply) && MoveForces(u, b, depth, ply, m, v)
  }

  ghost predicate MoveForces(u: Game, b: Board, depth: nat, ply: nat, own: Move, v: real)
    requires depth > 0
    decreases depth, 0
  {
    forall moves :: IsJoint(OptionsFor(u, b, own), moves) ==> CanForce(u, After(b, moves), depth - 1, ply + 1, v)
  }

  /** Evaluations in reach are finite, and decided positions two or more turns away have lasting scores. */
  ghost predicate Settled(u: Game, b: Board, depth: nat, ply: nat)
    decreases depth
  {
    var outcome := Classify(b, u.me, u.opponent);
    if outcome != Unresolved then
      (ply <= 1 || Lasts(u.weights, outcome)) && IsFinite(TerminalValue(u.weights, outcome, ply).score)
    else if Ends(u, b, depth, ply) then IsFinite(u.eval(b))
    else forall m, moves :: m in OwnMoves(u, b, ply) && IsJoint(OptionsFor(u, b, m), moves) ==>
           Settled(u, After(b, moves), depth - 1, ply + 1)
  }

  /** Without a survival step every board is settled. */
  lemma {:induction false} NoStepSettles(u: Game, b: Board, depth: nat, ply: nat)
    requires FiniteWeights(u.weights) && SurvivalStep(u.weights) == 0.0 && forall b :: IsFinite(u.eval(b))
    ensures Settled(u, b, depth, ply)
    decreases depth
  {
    hide Classify, Step, OptionsFor, OwnMoves;
    if Classify(b, u.me, u.opponent) == Unresolved && !Ends(u, b, depth, ply) {
      forall m, moves | m in OwnMoves(u, b, ply) && IsJoint(OptionsFor(u, b, m), moves)
        ensures Settled(u, After(b, moves), depth - 1, ply + 1)
      {
        NoStepSettles(u, After(b, moves), depth - 1, ply + 1);
      }
    }
  }

  /** Some board in reach has more joint replies to one own move than an int can number. */
  ghost predicate Crowded(u: Game, b: Board, depth: nat, ply: nat)
    decreases depth, 1
  {
    && Classify(b, u.me, u.opponent) == Unresolved && !Ends(u, b, depth, ply)
    && exists m :: m in OwnMoves(u, b, ply) && MoveCrowded(u, b, depth, ply, m)
  }

  ghost predicate MoveCrowded(u: Game, b: Board, depth: nat, ply: nat, own: Move)
    requires depth > 0
    decreases depth, 0
  {
    || Combinations(OptionsFor(u, b, own), 0) > INT_MAX
    || exists moves :: IsJoint(OptionsFor(u, b, own), moves) && Crowded(u, After(b, moves), depth - 1, ply + 1)
  }

  /** Fifteen snakes with four moves each can be numbered, and snakes only get fewer. */
  lemma {:induction false} FewSnakesFit(u: Game, b: Board, depth: nat, ply: nat)
    requires |b.snakes| <= 15
    ensures !Crowded(u, b, depth, ply)
    decreases depth
  {
    hide Classify, Step, OptionsFor, OwnMoves;
    if Classify(b, u.me, u.opponent) == Unresolved && !Ends(u, b, depth, ply) {
      forall m | m in OwnMoves(u, b, ply) ensures !MoveCrowded(u, b, depth, ply, m) {
        var options := OptionsFor(u, b, m);
        FewOptions(u, b, m);
        FewCombinations(options, 0);
        forall moves | IsJoint(options, moves) ensures !Crowded(u, After(b, moves), depth - 1, ply + 1) {
          StepLosesSnakes(b, Commands(b, moves));
          FewSnakesFit(u, After(b, moves), depth - 1, ply + 1);
        }
      }
    }
  }

  lemma FewOptions(u: Game, b: Board, own: Move)
    ensures forall i :: 0 <= i < |b.snakes| ==> |OptionsFor(u, b, own)[i]| <= 4
  {
    hide CommandMoves;
  }

  lemma StepLosesSnakes(b: Board, commands: seq<Command>)
    ensures |Step(b, commands).snakes| <= |b.snakes|
  {}

  function Power4(n: nat): nat { if n == 0 then 1 else 4 * Power4(n - 1) }

  lemma {:induction false} FewCombinations(options: Options, i: nat)
    requires i <= |options| <= 15 && AllOffered(options) && forall k :: 0 <= k < |options| ==> |options[k]| <= 4
    ensures Combinations(options, i) <= Power4(|options| - i) <= INT_MAX
    decreases |options| - i
  {
    Power4Grows(|options| - i, 15);
    assert Power4(15) == 1073741824;
    if i < |options| {
      FewCombinations(options, i + 1);
      MulMonotone(Combinations(options, i + 1), Power4(|options| - i - 1), |options[i]|);
      MulMonotone(|options[i]|, 4, Power4(|options| - i - 1));
    }
  }

  lemma {:induction false} Power4Grows(n: nat, m: nat)
    requires n <= m
    ensures 1 <= Power4(n) <= Power4(m)
  {
    if m > 0 {
      Power4Grows(if n < m then n else n - 1, m - 1);
    }
  }

  lemma SomeJoint(options: Options) returns (moves: seq<Move>)
    requires AllOffered(options)
    ensures IsJoint(options, moves)
  {
    moves := seq(|options|, i requires 0 <= i < |options| => options[i][0]);
  }

  /** A tree of a settled board is steady. */
  lemma {:induction false} UnfoldingIsSteady(u: Game, b: Board, depth: nat, ply: nat, t: Node)
    requires Unfolds(u, b, depth, ply, t) && Settled(u, b, depth, ply)
    ensures Steady(u.weights, t, ply)
    decreases depth
  {
    hide Classify, Step, OptionsFor, OwnMoves;
    if t.Choice? {
      assert OwnMoves(u, b, ply)[0] in OwnMoves(u, b, ply);
      forall i | 0 <= i < |t.branches| ensures SteadyBranch(u.weights, t.branches[i], ply) {
        var br := t.branches[i];
        assert BranchUnfolds(u, b, depth, ply, br);
        var some := SomeJoint(OptionsFor(u, b, br.move));
        assert br.replies != [];
        forall k | 0 <= k < |br.replies| ensures Steady(u.weights, br.replies[k].node, ply + 1) {
          assert ReplyUnfolds(u, b, depth, ply, br.move, br.replies[k]);
          UnfoldingIsSteady(u, After(b, br.replies[k].moves), depth - 1, ply + 1, br.replies[k].node);
        }
      }
    }
  }

  /** Whatever the order, a tree allows forcing exactly what the board allows. */
  lemma {:induction false} UnfoldingForces(u: Game, b: Board, depth: nat, ply: nat, t: Node, v: real)
    requires Unfolds(u, b, depth, ply, t)
    ensures Forces(u.weights, t, ply, v) <==> CanForce(u, b, depth, ply, v)
    decreases depth, 1
  {
    hide Classify, Step, OptionsFor, OwnMoves;
    if t.Choice? {
      forall i | 0 <= i < |t.branches|
        ensures BranchForces(u.weights, t.branches[i], ply, v) <==> MoveForces(u, b, depth, ply, t.branches[i].move, v)
      {
        assert BranchUnfolds(u, b, depth, ply, t.branches[i]);
        BranchForcesMove(u, b, depth, ply, t.branches[i], v);
      }
    }
  }

  lemma {:induction false} BranchForcesMove(u: Game, b: Board, depth: nat, ply: nat, br: Branch, v: real)
    requires depth > 0 && BranchUnfolds(u, b, depth, ply, br)
    ensures BranchForces(u.weights, br, ply, v) <==> MoveForces(u, b, depth, ply, br.move, v)
    decreases depth, 0
  {
    hide Classify, Step, OptionsFor, OwnMoves;
    forall k | 0 <= k < |br.replies|
      ensures IsJoint(OptionsFor(u, b, br.move), br.replies[k].moves)
      ensures |br.replies[k].moves| == |b.snakes|
      ensures Forces(u.weights, br.replies[k].node, ply + 1, v) <==> CanForce(u, After(b, br.replies[k].moves), depth - 1, ply + 1, v)
    {
      assert ReplyUnfolds(u, b, depth, ply, br.move, br.replies[k]);
      UnfoldingForces(u, After(b, br.replies[k].moves), depth - 1, ply + 1, br.replies[k].node, v);
    }
  }

  /** The same options for every snake, perhaps in another order. */
  ghost predicate SameOffers(options: Options, others: Options) {
    && |options| == |others| && AllOffered(options)
    && forall i :: 0 <= i < |options| ==> forall m :: m in options[i] <==> m in others[i]
  }

  /** The tree with moves and replies in the order of enumeration. */
  ghost function Canonical(u: Game, b: Board, depth: nat, ply: nat): Node
    decreases depth, 1
  {
    if Classify(b, u.me, u.opponent) != Unresolved then Terminal(Classify(b, u.me, u.opponent))
    else if Ends(u, b, depth, ply) then Quiet(u.eval(b))
    else
      var own := OwnMoves(u, b, ply);
      Choice(seq(|own|, i requires 0 <= i < |own| => CanonicalBranch(u, b, depth, ply, own[i])))
  }

  ghost function CanonicalBranch(u: Game, b: Board, depth: nat, ply: nat, own: Move): Branch
    requires depth > 0
    decreases depth, 0
  {
    Branch(own, false, CanonicalReplies(u, b, depth, ply, OptionsFor(u, b, own), 0))
  }

  /** The replies with numbers from c on. */
  ghost function CanonicalReplies(u: Game, b: Board, depth: nat, ply: nat, options: Options, c: nat): (r: seq<Reply>)
    requires depth > 0 && |options| == |b.snakes| && AllOffered(options)
    ensures |r| == if c <= Combinations(options, 0) then Combinations(options, 0) - c else 0
    ensures forall k :: 0 <= k < |r| ==> r[k].moves == Decode(options, 0, c + k)
    decreases depth - 1, 2
  {
    var n := if c <= Combinations(options, 0) then Combinations(options, 0) - c else 0;
    seq(n, k requires 0 <= k < n =>
      var moves := Decode(options, 0, c + k);
      Reply(moves, Canonical(u, After(b, moves), depth - 1, ply + 1)))
  }

  lemma DecodedIsJoint(options: Options, others: Options, c: nat)
    requires SameOffers(options, others)
    ensures IsJoint(others, Decode(options, 0, c))
  {
    DecodeIsJoint(options, 0, c);
    assert options[0..] == options;
  }

  lemma {:induction false} CanonicalUnfolds(u: Game, b: Board, depth: nat, ply: nat)
    ensures Unfolds(u, b, depth, ply, Canonical(u, b, depth, ply))
    decreases depth, 1
  {
    hide Classify, Step, OptionsFor, OwnMoves, CanonicalBranch, BranchUnfolds;
    if Classify(b, u.me, u.opponent) == Unresolved && !Ends(u, b, depth, ply) {
      var own, t := OwnMoves(u, b, ply), Canonical(u, b, depth, ply);
      forall i | 0 <= i < |t.branches|
        ensures t.branches[i].move == own[i] && BranchUnfolds(u, b, depth, ply, t.branches[i])
      {
        CanonicalBranchUnfolds(u, b, depth, ply, own[i]);
      }
      forall m | m in own ensures exists i :: 0 <= i < |t.branches| && t.branches[i].move == m {
        var i :| 0 <= i < |own| && own[i] == m;
        assert t.branches[i].move == m;
      }
    }
  }

  lemma {:induction false} CanonicalBranchUnfolds(u: Game, b: Board, depth: nat, ply: nat, own: Move)
    requires depth > 0
    ensures CanonicalBranch(u, b, depth, ply, own).move == own
    ensures BranchUnfolds(u, b, depth, ply, CanonicalBranch(u, b, depth, ply, own))
    decreases depth, 0
  {
    hide OptionsFor, ReplyUnfolds, BranchUnfolds;
    var options := OptionsFor(u, b, own);
    CanonicalRepliesUnfold(u, b, depth, ply, own, options, 0);
    var br := CanonicalBranch(u, b, depth, ply, own);
    assert br.move == own && br.replies == CanonicalReplies(u, b, depth, ply, options, 0);
    CompleteReplies(u, b, depth, ply, br, options);
  }

  lemma {:induction false} CanonicalRepliesUnfold(u: Game, b: Board, depth: nat, ply: nat, own: Move, options: Options, c: nat)
    requires depth > 0 && SameOffers(options, OptionsFor(u, b, own))
    ensures var r := CanonicalReplies(u, b, depth, ply, options, c);
            forall k :: 0 <= k < |r| ==> ReplyUnfolds(u, b, depth, ply, own, r[k])
    decreases depth - 1, 2
  {
    hide Classify, Step, OptionsFor, OwnMoves, Decode, Combinations, Unfolds;
    var r := CanonicalReplies(u, b, depth, ply, options, c);
    forall k | 0 <= k < |r| ensures ReplyUnfolds(u, b, depth, ply, own, r[k]) {
      DecodedIsJoint(options, OptionsFor(u, b, own), c + k);
      CanonicalUnfolds(u, After(b, r[k].moves), depth - 1, ply + 1);
    }
  }

  ghost predicate Numbered(options: Options, r: seq<Reply>)
    requires AllOffered(options)
  {
    forall k :: 0 <= k < |r| ==> r[k].moves == Decode(options, 0, k)
  }

  /** Replies numbered in the order of enumeration leave none out. */
  lemma CompleteReplies(u: Game, b: Board, depth: nat, ply: nat, br: Branch, options: Options)
    requires depth > 0 && SameOffers(options, OptionsFor(u, b, br.move))
    requires |br.replies| == Combinations(options, 0) && Numbered(options, br.replies)
    requires forall k :: 0 <= k < |br.replies| ==> ReplyUnfolds(u, b, depth, ply, br.move, br.replies[k])
    ensures BranchUnfolds(u, b, depth, ply, br)
  {
    hide OptionsFor, ReplyUnfolds;
    forall moves | IsJoint(OptionsFor(u, b, br.move), moves)
      ensures exists k :: 0 <= k < |br.replies| && br.replies[k].moves == moves
    {
      assert options[0..] == options;
      var k := EveryJointIsDecoded(options, 0, moves);
      assert br.replies[k].moves == moves;
    }
  }
}

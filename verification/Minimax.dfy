/**
 The alpha-beta search on the mutable board: moves are made and unmade, replies are
 enumerated by number, and cut-offs leave branches out. Its value is that of the search
 of a game tree of the board, in the order in which moves were tried.
 */
module Minimax {
  import opened Grid
  import opened Boards
  import opened SearchStates
  import opened Outcomes
  import opened ForcedLoss
  import opened JointMoves
  import opened Limits
  import opened AlphaBeta
  import opened GameTrees
  import opened SearchFolds
  import SafeMoves

  datatype Status = Done | Interrupted | TooMany

  /** How many nodes the search has visited, and how often it has looked at the clock. */
  datatype Effort = Effort(nodes: nat, checks: nat)

  /**
   What the clock says at each check, the ordering of moves and the tie-break, each depending on
   the search so far in any way. Slot 0 of the ordering is for own moves, slot i + 1 for the
   options of snake i.
   */
  datatype Policy = Policy(interrupted: nat -> bool, order: (nat, Effort, seq<Move>) -> seq<Move>,
                           prefer: (Effort, Move, Move) -> bool)

  ghost predicate NeverInterrupted(o: Policy) {
    forall n: nat :: !o.interrupted(n)
  }

  /** Ordering moves loses and invents none. */
  ghost predicate Reorders(o: Policy) {
    forall slot: nat, e: Effort, moves :: multiset(o.order(slot, e, moves)) == multiset(moves)
  }

  lemma OrderKeepsMoves(o: Policy, slot: nat, e: Effort, moves: seq<Move>)
    requires Reorders(o)
    ensures |o.order(slot, e, moves)| == |moves|
    ensures forall m :: m in o.order(slot, e, moves) <==> m in moves
  {
    var ordered := o.order(slot, e, moves);
    assert multiset(ordered) == multiset(moves);
    assert |multiset(ordered)| == |ordered| && |multiset(moves)| == |moves|;
    forall m ensures m in ordered <==> m in moves {
      assert m in ordered <==> m in multiset(ordered);
      assert m in moves <==> m in multiset(moves);
    }
  }

  method OwnMoveList(u: Game, b: Board, ply: nat) returns (moves: seq<Move>)
    ensures moves == OwnMoves(u, b, ply)
  {
    if ply == 0 {
      return u.rootMoves;
    }
    moves := SafeMoves.SafeMoveList(b, u.me);
    if moves == [] {
      moves := DIRECTIONS;
    }
  }

  /** The options of one snake; at the root the opponent's are put in order. */
  method OffersOf(u: Game, o: Policy, b: Board, ply: nat, own: Move, effort: Effort, i: nat) returns (offered: seq<Move>)
    requires Reorders(o) && i < |b.snakes|
    ensures Reordered(offered, OptionsFor(u, b, own)[i])
  {
    hide CommandMoves, Reorders;
    if b.snakes[i].id == u.me {
      offered := [own];
    } else {
      offered := CommandMoveList(b, b.snakes[i].id);
      if offered == [] {
        offered := [Invalid];
      }
      OrderKeepsMoves(o, i + 1, effort, offered);
      if ply == 0 && b.snakes[i].id == u.opponent {
        offered := o.order(i + 1, effort, offered);
      }
    }
  }

  ghost predicate Reordered(a: seq<Move>, b: seq<Move>) {
    a != [] && |a| == |b| && forall m :: m in a <==> m in b
  }

  /** The options of every snake. */
  method OptionList(u: Game, o: Policy, b: Board, ply: nat, own: Move, effort: Effort) returns (options: Options)
    requires Reorders(o)
    ensures SameOffers(options, OptionsFor(u, b, own)) && |options| == |b.snakes|
    ensures Combinations(options, 0) == Combinations(OptionsFor(u, b, own), 0)
  {
    hide OptionsFor, Combinations, Reorders;
    options := [];
    for i := 0 to |b.snakes|
      invariant |options| == i
      invariant forall k :: 0 <= k < i ==> Reordered(options[k], OptionsFor(u, b, own)[k])
    {
      var offered := OffersOf(u, o, b, ply, own, effort, i);
      options := options + [offered];
    }
    SameSizes(options, OptionsFor(u, b, own), 0);
  }

  lemma {:induction false} SameSizes(options: Options, others: Options, i: nat)
    requires i <= |options| == |others| && forall k :: 0 <= k < |options| ==> |options[k]| == |others[k]|
    ensures Combinations(options, i) == Combinations(others, i)
    decreases |options| - i
  {
    if i < |options| {
      SameSizes(options, others, i + 1);
    }
  }

  /** Tries the joint replies to one own move, up to a cut-off. */
  method TryReplies(u: Game, o: Policy, state: CoreSearchState, depth: nat, ply: nat, alpha: real, beta: real, own: Move,
                    effortIn: Effort)
    returns (status: Status, worst: Value, cut: bool, effort: Effort, ghost replies: seq<Reply>)
    requires state.Valid() && Reorders(o) && depth > 0
    modifies state.Repr
    ensures state.Valid() && fresh(state.Repr - old(state.Repr)) && state.boards == old(state.boards)
    ensures status == Done ==> forall preferred ::
      BranchUnfolds(u, old(state.Top()), depth, ply, Branch(own, preferred, replies))
    ensures status == Done ==> (worst, cut) == WorstReply(u.weights, replies, 0, alpha, beta, Unsettled(DBL_MAX))
    ensures NeverInterrupted(o) ==> status != Interrupted
    ensures status == TooMany ==> MoveCrowded(u, old(state.Top()), depth, ply, own)
    decreases depth, 0
  {
    hide Unfolds, BranchUnfolds, ReplyUnfolds, Search, WorstReply, Step, Decode, Combinations, CoreSearchState.Valid,
      NotCut, Numbered, CanonicalReplies;
    worst, cut, effort, replies := Unsettled(DBL_MAX), false, effortIn, [];
    ghost var top := state.Top();
    var board := state.CurrentBoard();
    var options := OptionList(u, o, board, ply, own, effort);
    var total, fits := CountCombinations(options);
    if !fits {
      return TooMany, worst, cut, effort, replies;
    }
    NothingTried(u.weights, options, alpha, beta);
    for combo := 0 to total
      invariant state.Valid() && fresh(state.Repr - old(state.Repr)) && state.boards == old(state.boards)
      invariant |replies| == combo && Numbered(options, replies)
      invariant forall k :: 0 <= k < combo ==> ReplyUnfolds(u, top, depth, ply, own, replies[k])
      invariant worst == WorstAfter(u.weights, replies, combo, alpha, beta) && NotCut(u.weights, replies, combo, alpha, beta)
    {
      var stop := o.interrupted(effort.checks);
      effort := effort.(checks := effort.checks + 1);
      if stop {
        return Interrupted, worst, cut, effort, replies;
      }
      var moves := DecodeMoves(options, combo);
      DecodedIsJoint(options, OptionsFor(u, top, own), combo);
      var childBeta := Least(worst.score, beta);
      var value;
      ghost var node;
      status, value, effort, node := TryReply(u, o, state, depth, ply, alpha, childBeta, own, moves, effort);
      if status != Done {
        return status, worst, cut, effort, replies;
      }
      ghost var before := replies;
      replies := replies + [Reply(moves, node)];
      ReplyAdded(u.weights, options, before, Reply(moves, node), alpha, beta);
      if value.score < worst.score {
        worst := value;
      }
      if worst.score <= alpha {
        cut := true;
        CutOff(u, top, depth, ply, own, options, replies, alpha, beta);
        replies := replies + CanonicalReplies(u, top, depth, ply, options, combo + 1);
        return Done, worst, cut, effort, replies;
      }
      StillOpen(u.weights, replies, alpha, beta);
    }
    status := Done;
    WorstReplyEnds(u.weights, replies, total, alpha, beta);
    forall preferred ensures BranchUnfolds(u, top, depth, ply, Branch(own, preferred, replies)) {
      CompleteReplies(u, top, depth, ply, Branch(own, preferred, replies), options);
    }
  }

  lemma NothingTried(w: Weights, options: Options, alpha: real, beta: real)
    requires AllOffered(options)
    ensures Numbered(options, []) && NotCut(w, [], 0, alpha, beta)
  {}

  lemma ReplyAdded(w: Weights, options: Options, before: seq<Reply>, r: Reply, alpha: real, beta: real)
    requires AllOffered(options) && Numbered(options, before) && r.moves == Decode(options, 0, |before|)
    requires NotCut(w, before, |before|, alpha, beta)
    ensures var replies, worst := before + [r], WorstAfter(w, before, |before|, alpha, beta);
            var value := Backup(w, Search(w, r.node, alpha, Least(worst.score, beta)));
            && Numbered(options, replies) && NotCut(w, replies, |before|, alpha, beta)
            && WorstAfter(w, replies, |before|, alpha, beta) == worst
            && WorstAfter(w, replies, |replies|, alpha, beta) == if value.score < worst.score then value else worst
  {
    hide Search, Backup, Decode;
    var replies := before + [r];
    assert replies[..|before|] == before == before[..|before|];
    WorstAfterPrefix(w, before, replies, |before|, alpha, beta);
    NotCutPrefix(w, before, replies, |before|, alpha, beta);
  }

  lemma StillOpen(w: Weights, replies: seq<Reply>, alpha: real, beta: real)
    requires replies != [] && NotCut(w, replies, |replies| - 1, alpha, beta)
    requires WorstAfter(w, replies, |replies|, alpha, beta).score > alpha
    ensures NotCut(w, replies, |replies|, alpha, beta)
  {
    hide WorstAfter;
  }

  /** When the last reply cuts off, the replies left out may be any: take the enumerated ones. */
  lemma CutOff(u: Game, b: Board, depth: nat, ply: nat, own: Move, options: Options, seen: seq<Reply>, alpha: real, beta: real)
    requires depth > 0 && SameOffers(options, OptionsFor(u, b, own)) && |options| == |b.snakes|
    requires 0 < |seen| <= Combinations(options, 0) && Numbered(options, seen)
    requires forall k :: 0 <= k < |seen| ==> ReplyUnfolds(u, b, depth, ply, own, seen[k])
    requires NotCut(u.weights, seen, |seen| - 1, alpha, beta)
    requires WorstAfter(u.weights, seen, |seen|, alpha, beta).score <= alpha
    ensures var all := seen + CanonicalReplies(u, b, depth, ply, options, |seen|);
            && WorstReply(u.weights, all, 0, alpha, beta, Unsettled(DBL_MAX))
            == (WorstAfter(u.weights, seen, |seen|, alpha, beta), true)
            && forall preferred :: BranchUnfolds(u, b, depth, ply, Branch(own, preferred, all))
  {
    hide ReplyUnfolds, BranchUnfolds, WorstReply, WorstAfter, Decode, OptionsFor;
    var n := |seen|;
    var rest := CanonicalReplies(u, b, depth, ply, options, n);
    var all := seen + rest;
    CanonicalRepliesUnfold(u, b, depth, ply, own, options, n);
    assert all[..n] == seen == seen[..n] && all[..n - 1] == seen[..n - 1];
    WorstAfterPrefix(u.weights, seen, all, n, alpha, beta);
    NotCutPrefix(u.weights, seen, all, n - 1, alpha, beta);
    WorstReplyEnds(u.weights, all, n - 1, alpha, beta);
    AllNumbered(options, seen, rest);
    forall k | 0 <= k < |all| ensures ReplyUnfolds(u, b, depth, ply, own, all[k]) {
      if k < n {
        assert all[k] == seen[k] && ReplyUnfolds(u, b, depth, ply, own, seen[k]);
      } else {
        assert all[k] == rest[k - n] && ReplyUnfolds(u, b, depth, ply, own, rest[k - n]);
      }
    }
    forall preferred ensures BranchUnfolds(u, b, depth, ply, Branch(own, preferred, all)) {
      CompleteReplies(u, b, depth, ply, Branch(own, preferred, all), options);
    }
  }

  lemma AllNumbered(options: Options, seen: seq<Reply>, rest: seq<Reply>)
    requires AllOffered(options) && Numbered(options, seen)
    requires forall k :: 0 <= k < |rest| ==> rest[k].moves == Decode(options, 0, |seen| + k)
    ensures Numbered(options, seen + rest)
  {}

  /** Makes one joint move, searches on, and unmakes it. */
  method TryReply(u: Game, o: Policy, state: CoreSearchState, depth: nat, ply: nat, alpha: real, beta: real, own: Move,
                  moves: seq<Move>, effortIn: Effort)
    returns (status: Status, value: Value, effort: Effort, ghost node: Node)
    requires state.Valid() && Reorders(o) && depth > 0
    requires IsJoint(OptionsFor(u, state.Top(), own), moves)
    modifies state.Repr
    ensures state.Valid() && fresh(state.Repr - old(state.Repr)) && state.boards == old(state.boards)
    ensures status == Done ==> ReplyUnfolds(u, old(state.Top()), depth, ply, own, Reply(moves, node))
    ensures status == Done ==> value == Backup(u.weights, Search(u.weights, node, alpha, beta))
    ensures NeverInterrupted(o) ==> status != Interrupted
    ensures status == TooMany ==> MoveCrowded(u, old(state.Top()), depth, ply, own)
    decreases depth - 1, 3
  {
    hide Unfolds, Search, Step, CoreSearchState.Valid, OptionsFor, Reorders, NeverInterrupted, Backup, IsJoint;
    ghost var top := state.Top();
    assert |moves| == |top.snakes| by {
      JointLength(u, top, own, moves);
    }
    var board := state.CurrentBoard();
    var _ := state.MakeMovesDetailed(Commands(board, moves), |moves|);
    var ignoredMoves, ignoredValues;
    status, value, ignoredMoves, ignoredValues, effort, node := SearchNode(u, o, state, depth - 1, ply + 1, alpha, beta, effortIn);
    var _ := state.Unmake();
    value := Backup(u.weights, value);
  }

  lemma JointLength(u: Game, b: Board, own: Move, moves: seq<Move>)
    requires IsJoint(OptionsFor(u, b, own), moves)
    ensures |moves| == |b.snakes|
  {}

  /** Tries the own moves in order, until the window closes. */
  method TryMoves(u: Game, o: Policy, state: CoreSearchState, depth: nat, ply: nat, alpha0: real, beta: real,
                  own: seq<Move>, effortIn: Effort)
    returns (status: Status, best: Value, records: seq<Value>, effort: Effort, ghost branches: seq<Branch>)
    requires state.Valid() && Reorders(o) && depth > 0 && own != []
    modifies state.Repr
    ensures state.Valid() && fresh(state.Repr - old(state.Repr)) && state.boards == old(state.boards)
    ensures status == Done ==> |branches| == |own| && forall i :: 0 <= i < |own| ==>
      branches[i].move == own[i] && BranchUnfolds(u, old(state.Top()), depth, ply, branches[i])
    ensures status == Done ==> (best, records) == BestMove(u.weights, branches, 0, alpha0, beta, Unsettled(-DBL_MAX))
    ensures NeverInterrupted(o) ==> status != Interrupted
    ensures status == TooMany ==> exists m :: m in own && MoveCrowded(u, old(state.Top()), depth, ply, m)
    decreases depth, 1
  {
    hide Unfolds, BranchUnfolds, WorstReply, BestMove, CoreSearchState.Valid, NotDone, NextProgress, CanonicalBranch,
      MoveCrowded, Reorders;
    ghost var top := state.Top();
    best, records, effort, branches := Unsettled(-DBL_MAX), [], effortIn, [];
    var alpha, bestMove := alpha0, own[0];
    NothingDone(u.weights, alpha0, beta);
    for i := 0 to |own|
      invariant state.Valid() && fresh(state.Repr - old(state.Repr)) && state.boards == old(state.boards)
      invariant |branches| == i
      invariant forall k :: 0 <= k < i ==> branches[k].move == own[k] && BranchUnfolds(u, top, depth, ply, branches[k])
      invariant Progress(best, alpha, records) == BestAfter(u.weights, branches, i, alpha0, beta)
      invariant NotDone(u.weights, branches, i, alpha0, beta)
    {
      var stop := o.interrupted(effort.checks);
      effort := effort.(checks := effort.checks + 1);
      if stop {
        return Interrupted, best, records, effort, branches;
      }
      var worst, cut;
      ghost var replies;
      status, worst, cut, effort, replies := TryReplies(u, o, state, depth, ply, alpha, beta, own[i], effort);
      if status != Done {
        return status, best, records, effort, branches;
      }
      var preferred := o.prefer(effort, own[i], bestMove);
      ghost var before, br := branches, Branch(own[i], preferred, replies);
      branches := branches + [br];
      MoveTried(u.weights, before, br, worst, cut, alpha0, beta);
      records := records + [worst.(bound := if cut then UpperBound else Exact)];
      if worst.score > best.score || (worst.score == best.score && preferred) {
        best, bestMove := worst, own[i];
      }
      if best.score > alpha {
        alpha := best.score;
      }
      if alpha >= beta {
        WindowCloses(u, top, depth, ply, own, branches, alpha0, beta);
        branches := branches + Remaining(u, top, depth, ply, own, i + 1);
        return Done, best, records, effort, branches;
      }
      StillTrying(u.weights, branches, alpha0, beta);
    }
    status := Done;
    BestMoveEnds(u.weights, branches, |own|, alpha0, beta);
  }

  lemma NothingDone(w: Weights, alpha: real, beta: real)
    ensures NotDone(w, [], 0, alpha, beta)
  {}

  lemma MoveTried(w: Weights, before: seq<Branch>, br: Branch, worst: Value, cut: bool, alpha0: real, beta: real)
    requires NotDone(w, before, |before|, alpha0, beta)
    requires var p := BestAfter(w, before, |before|, alpha0, beta);
             (worst, cut) == WorstReply(w, br.replies, 0, p.alpha, beta, Unsettled(DBL_MAX))
    ensures var p, all := BestAfter(w, before, |before|, alpha0, beta), before + [br];
            var next := if Replaces(br, worst, p.best) then worst else p.best;
            && BestAfter(w, all, |all|, alpha0, beta)
            == Progress(next, Most(p.alpha, next.score), p.records + [worst.(bound := if cut then UpperBound else Exact)])
            && NotDone(w, all, |before|, alpha0, beta)
  {
    hide WorstReply;
    var all := before + [br];
    assert all[..|before|] == before == before[..|before|];
    BestAfterPrefix(w, before, all, |before|, alpha0, beta);
    NotDonePrefix(w, before, all, |before|, alpha0, beta);
  }

  lemma StillTrying(w: Weights, branches: seq<Branch>, alpha: real, beta: real)
    requires branches != [] && NotDone(w, branches, |branches| - 1, alpha, beta)
    requires BestAfter(w, branches, |branches|, alpha, beta).alpha < beta
    ensures NotDone(w, branches, |branches|, alpha, beta)
  {
    hide BestAfter;
  }

  /** The own moves left out, as they would be enumerated. */
  ghost function Remaining(u: Game, b: Board, depth: nat, ply: nat, own: seq<Move>, i: nat): (r: seq<Branch>)
    requires depth > 0 && i <= |own|
    ensures |r| == |own| - i
  {
    seq(|own| - i, k requires 0 <= k < |own| - i => CanonicalBranch(u, b, depth, ply, own[i + k]))
  }

  lemma WindowCloses(u: Game, b: Board, depth: nat, ply: nat, own: seq<Move>, tried: seq<Branch>, alpha: real, beta: real)
    requires depth > 0 && 0 < |tried| <= |own|
    requires forall k :: 0 <= k < |tried| ==> tried[k].move == own[k] && BranchUnfolds(u, b, depth, ply, tried[k])
    requires NotDone(u.weights, tried, |tried| - 1, alpha, beta)
    requires BestAfter(u.weights, tried, |tried|, alpha, beta).alpha >= beta
    ensures var all := tried + Remaining(u, b, depth, ply, own, |tried|);
            var p := BestAfter(u.weights, tried, |tried|, alpha, beta);
            && BestMove(u.weights, all, 0, alpha, beta, Unsettled(-DBL_MAX)) == (p.best, p.records)
            && forall i :: 0 <= i < |own| ==> all[i].move == own[i] && BranchUnfolds(u, b, depth, ply, all[i])
  {
    hide BranchUnfolds, BestAfter, BestMove, CanonicalBranch;
    var n, rest := |tried|, Remaining(u, b, depth, ply, own, |tried|);
    var all := tried + rest;
    assert all[..n] == tried == tried[..n] && all[..n - 1] == tried[..n - 1];
    BestAfterPrefix(u.weights, tried, all, n, alpha, beta);
    NotDonePrefix(u.weights, tried, all, n - 1, alpha, beta);
    BestMoveEnds(u.weights, all, n - 1, alpha, beta);
    forall i | 0 <= i < |own| ensures all[i].move == own[i] && BranchUnfolds(u, b, depth, ply, all[i]) {
      if i >= n {
        assert all[i] == rest[i - n];
        CanonicalBranchUnfolds(u, b, depth, ply, own[i]);
      }
    }
  }

  /**
   The search of one node. The board is restored whatever happens; unless interrupted, the
   value and the values recorded for the own moves are those of a tree of the board.
   */
  method SearchNode(u: Game, o: Policy, state: CoreSearchState, depth: nat, ply: nat, alpha: real, beta: real, effortIn: Effort)
    returns (status: Status, value: Value, tried: seq<Move>, records: seq<Value>, effort: Effort, ghost tree: Node)
    requires state.Valid() && Reorders(o)
    modifies state.Repr
    ensures state.Valid() && fresh(state.Repr - old(state.Repr)) && state.boards == old(state.boards)
    ensures status == Done ==> Unfolds(u, old(state.Top()), depth, ply, tree)
    ensures status == Done ==> value == Search(u.weights, tree, alpha, beta)
    ensures status == Done && tree.Choice? ==>
      && records == BestMove(u.weights, tree.branches, 0, alpha, beta, Unsettled(-DBL_MAX)).1
      && |tried| == |tree.branches| && forall i :: 0 <= i < |tried| ==> tried[i] == tree.branches[i].move
    ensures multiset(tried) <= multiset(OwnMoves(u, old(state.Top()), ply))
    ensures NeverInterrupted(o) ==> status != Interrupted
    ensures status == TooMany ==> Crowded(u, old(state.Top()), depth, ply)
    decreases depth, 2
  {
    hide BranchUnfolds, BestMove, CoreSearchState.Valid, OwnMoves, Classify;
    value, tried, records, effort, tree := Unsettled(0.0), [], [], effortIn, Terminal(Unresolved);
    var stop := o.interrupted(effort.checks);
    effort := effort.(checks := effort.checks + 1);
    if stop {
      return Interrupted, value, tried, records, effort, tree;
    }
    effort := effort.(nodes := effort.nodes + 1);
    ghost var top := state.Top();
    var board := state.CurrentBoard();
    var outcome := Classify(board, u.me, u.opponent);
    if outcome != Unresolved {
      return Done, TerminalValue(u.weights, outcome, 0), tried, records, effort, Terminal(outcome);
    }
    if depth == 0 {
      return Done, Unsettled(u.eval(board)), tried, records, effort, Quiet(u.eval(board));
    }
    var own := OwnMoveList(u, board, ply);
    if own == [] {
      return Done, Unsettled(u.eval(board)), tried, records, effort, Quiet(u.eval(board));
    }
    OrderKeepsMoves(o, 0, effort, own);
    tried := o.order(0, effort, own);
    ghost var branches;
    status, value, records, effort, branches := TryMoves(u, o, state, depth, ply, alpha, beta, tried, effort);
    if status == Done {
      tree := Choice(branches);
      value := value.(bound := BoundOf(value.score, alpha, beta));
      forall m | m in own ensures exists i :: 0 <= i < |branches| && branches[i].move == m {
        var i :| 0 <= i < |tried| && tried[i] == m;
        assert branches[i].move == m;
      }
    }
  }

  /** What a recorded value says about its move: exactly what can be forced, or no less than that. */
  ghost predicate Truthful(u: Game, b: Board, depth: nat, m: Move, r: Value)
    requires depth > 0
  {
    && (r.bound == Exact || r.bound == UpperBound)
    && (forall v :: MoveForces(u, b, depth, 0, m, v) ==> v <= r.score)
    && (r.bound == Exact ==> forall v :: v <= r.score ==> MoveForces(u, b, depth, 0, m, v))
  }

  /** Every root move is tried, and its record is truthful. */
  ghost predicate TruthfulRecords(u: Game, b: Board, depth: nat, tried: seq<Move>, records: seq<Value>)
    requires depth > 0
  {
    && |tried| == |records| && (forall m :: m in u.rootMoves <==> m in tried)
    && forall i :: 0 <= i < |records| ==> IsFinite(records[i].score) && Truthful(u, b, depth, tried[i], records[i])
  }

  /**
   The search from the root in the widest window. It finishes unless the clock interrupts it or
   joint replies are too many to number, which takes more than fifteen snakes. When decided
   positions keep their scores, the score is the most the snake can force, an exact record attains
   it, and all records are truthful, however moves were ordered and ties broken.
   */
  method SearchRoot(u: Game, o: Policy, b: Board, depth: nat)
    returns (status: Status, value: Value, tried: seq<Move>, records: seq<Value>)
    requires Reorders(o) && depth > 0 && u.rootMoves != []
    ensures NeverInterrupted(o) ==> status != Interrupted
    ensures status == TooMany ==> Crowded(u, b, depth, 0) && |b.snakes| > 15
    ensures multiset(tried) <= multiset(u.rootMoves)
    ensures status == Done && Settled(u, b, depth, 0) ==>
      forall v :: CanForce(u, b, depth, 0, v) <==> v <= value.score
    ensures status == Done && Settled(u, b, depth, 0) && Classify(b, u.me, u.opponent) == Unresolved ==>
      && Attained(records, value.score) && TruthfulRecords(u, b, depth, tried, records)
  {
    hide Unfolds, Search, BestMove, Settled, CanForce, MoveForces, CoreSearchState.Valid, Crowded;
    var state := new CoreSearchState(b);
    var effort;
    ghost var tree;
    status, value, tried, records, effort, tree := SearchNode(u, o, state, depth, 0, -DBL_MAX, DBL_MAX, Effort(0, 0));
    if status == TooMany && |b.snakes| <= 15 {
      FewSnakesFit(u, b, depth, 0);
    }
    if status == Done && Settled(u, b, depth, 0) {
      RootIsTrue(u, b, depth, tree, value, tried, records);
    }
  }

  lemma RootIsTrue(u: Game, b: Board, depth: nat, tree: Node, value: Value, tried: seq<Move>, records: seq<Value>)
    requires depth > 0 && u.rootMoves != [] && Unfolds(u, b, depth, 0, tree) && Settled(u, b, depth, 0)
    requires value == Search(u.weights, tree, -DBL_MAX, DBL_MAX)
    requires tree.Choice? ==>
      && records == BestMove(u.weights, tree.branches, 0, -DBL_MAX, DBL_MAX, Unsettled(-DBL_MAX)).1
      && |tried| == |tree.branches| && forall i :: 0 <= i < |tried| ==> tried[i] == tree.branches[i].move
    ensures forall v :: CanForce(u, b, depth, 0, v) <==> v <= value.score
    ensures Classify(b, u.me, u.opponent) == Unresolved ==>
      && Attained(records, value.score) && TruthfulRecords(u, b, depth, tried, records)
  {
    hide Search, BestMove, BranchUnfolds, MoveForces, CanForce, Settled, Classify;
    UnfoldingIsSteady(u, b, depth, 0, tree);
    forall v ensures CanForce(u, b, depth, 0, v) <==> v <= value.score {
      UnfoldingForces(u, b, depth, 0, tree, v);
      MaximinForces(u.weights, tree, 0, v);
      RootScore(u.weights, tree);
    }
    if tree.Choice? {
      RootSound(u.weights, tree.branches);
      RootRecords(u.weights, tree.branches);
      forall i | 0 <= i < |records| ensures Truthful(u, b, depth, tried[i], records[i]) {
        RecordIsTruthful(u, b, depth, tree.branches[i], records[i]);
      }
    }
  }

  lemma RootScore(w: Weights, t: Node)
    requires Steady(w, t, 0)
    ensures Search(w, t, -DBL_MAX, DBL_MAX).score == Maximin(w, t, 0)
  {
    if t.Choice? {
      RootSound(w, t.branches);
    }
  }

  lemma RecordIsTruthful(u: Game, b: Board, depth: nat, br: Branch, r: Value)
    requires depth > 0 && BranchUnfolds(u, b, depth, 0, br)
    requires SteadyBranch(u.weights, br, 0) && TrueFlag(BranchValue(u.weights, br, 0), r)
    ensures Truthful(u, b, depth, br.move, r)
  {
    forall v ensures MoveForces(u, b, depth, 0, br.move, v) <==> v <= BranchValue(u.weights, br, 0) {
      BranchForcesMove(u, b, depth, 0, br, v);
      MinForces(u.weights, br.replies, |br.replies|, 1, v);
    }
  }
}

/**
 The forced-loss prover: a bounded AND/OR search on the mutable board that tries
 to show that every own move can be answered by a command that loses by force.
 */
module ForcedLoss {
  import opened Grid
  import opened Boards
  import opened Optional
  import opened SearchStates
  import opened Outcomes

  /** How a duel stands for me. */
  function Classify(b: Board, me: string, opponent: string): Outcome {
    if Alive(b, me) then (if Alive(b, opponent) then Unresolved else Win)
    else if Alive(b, opponent) then Loss
    else Draw
  }

  /** A two-segment snake may turn back onto its neck when that segment moves away. */
  predicate NeckVacates(b: Board, s: Snake) {
    |s.body| == 2 && !b.Constrictor() && s.body[1] !in b.food
  }

  predicate Commandable(b: Board, s: Snake, m: Move) {
    !(|s.body| > 1 && !NeckVacates(b, s) && MoveStep(s.Head(), m) == s.body[1])
  }

  function CommandsUpTo(b: Board, s: Snake, n: nat): (r: seq<Move>)
    requires n <= 4
    ensures |r| <= n
  {
    if n == 0 then []
    else CommandsUpTo(b, s, n - 1) + (if Commandable(b, s, DIRECTIONS[n - 1]) then [DIRECTIONS[n - 1]] else [])
  }

  /** The commands a snake is considered to have, in engine order. */
  function CommandMoves(b: Board, id: string): (r: seq<Move>)
    ensures |r| <= 4
  {
    if Alive(b, id) then CommandsUpTo(b, Lookup(b, id).value, 4) else []
  }

  lemma {:induction false} CommandsUpToMeaning(b: Board, s: Snake, n: nat, m: Move)
    requires n <= 4
    ensures m in CommandsUpTo(b, s, n) <==> m in DIRECTIONS[..n] && Commandable(b, s, m)
  {
    if n > 0 {
      CommandsUpToMeaning(b, s, n - 1, m);
      assert DIRECTIONS[..n] == DIRECTIONS[..n - 1] + [DIRECTIONS[n - 1]];
    }
  }

  lemma CommandMovesMeaning(b: Board, id: string, m: Move)
    ensures m in CommandMoves(b, id) <==> Alive(b, id) && m in DIRECTIONS && Commandable(b, Lookup(b, id).value, m)
  {
    if Alive(b, id) {
      CommandsUpToMeaning(b, Lookup(b, id).value, 4, m);
      assert DIRECTIONS[..4] == DIRECTIONS;
    }
  }

  method CommandMoveList(b: Board, id: string) returns (moves: seq<Move>)
    ensures moves == CommandMoves(b, id)
  {
    var found := Lookup(b, id);
    if found.None? || found.value.body == [] {
      return [];
    }
    var s := found.value;
    var neckIsVacatingTail := |s.body| == 2 && !b.Constrictor() && s.body[1] !in b.food;
    moves := [];
    for n := 0 to 4
      invariant moves == CommandsUpTo(b, s, n)
    {
      var next := MoveStep(s.Head(), DIRECTIONS[n]);
      if !(|s.body| > 1 && !neckIsVacatingTail && next == s.body[1]) {
        moves := moves + [DIRECTIONS[n]];
      }
    }
  }

  /** The board after my move and the opponent's reply. */
  ghost function Joint(b: Board, me: string, opponent: string, own: Move, reply: Move): Board {
    Step(b, [Command(me, own), Command(opponent, reply)])
  }

  /** Within depth turns, every own move has a reply that loses by force. */
  ghost predicate ForcesLoss(b: Board, me: string, opponent: string, depth: nat)
    decreases depth
  {
    match Classify(b, me, opponent)
    case Loss => true
    case Win => false
    case Draw => false
    case Unresolved =>
      && depth > 0
      && forall own :: own in DIRECTIONS ==>
           exists reply :: reply in CommandMoves(b, opponent)
                        && ForcesLoss(Joint(b, me, opponent, own, reply), me, opponent, depth - 1)
  }

  /** I have a strategy that ends in a win or a draw within depth turns against every command. */
  ghost predicate Escapes(b: Board, me: string, opponent: string, depth: nat)
    decreases depth
  {
    match Classify(b, me, opponent)
    case Loss => false
    case Win => true
    case Draw => true
    case Unresolved =>
      && depth > 0 && CommandMoves(b, opponent) != []
      && exists own :: own in DIRECTIONS && EscapesWith(b, me, opponent, depth, own)
  }

  ghost predicate EscapesWith(b: Board, me: string, opponent: string, depth: nat, own: Move)
    requires depth > 0
    decreases depth, 0
  {
    forall reply :: reply in CommandMoves(b, opponent) ==>
      Escapes(Joint(b, me, opponent, own, reply), me, opponent, depth - 1)
  }

  ghost predicate Refuted(b: Board, me: string, opponent: string, depth: nat, own: Move)
    requires depth > 0
  {
    exists reply :: reply in CommandMoves(b, opponent)
                 && ForcesLoss(Joint(b, me, opponent, own, reply), me, opponent, depth - 1)
  }

  /** An escape strategy contradicts a forced loss at every depth, however large. */
  lemma {:induction false} EscapeIsFinal(b: Board, me: string, opponent: string, depth: nat, other: nat)
    requires Escapes(b, me, opponent, depth)
    ensures !ForcesLoss(b, me, opponent, other)
    decreases depth
  {
    hide Joint, Classify, CommandMoves;
    if Classify(b, me, opponent) == Unresolved && other > 0 {
      var own :| own in DIRECTIONS && EscapesWith(b, me, opponent, depth, own);
      forall reply | reply in CommandMoves(b, opponent)
        ensures !ForcesLoss(Joint(b, me, opponent, own, reply), me, opponent, other - 1)
      {
        EscapeIsFinal(Joint(b, me, opponent, own, reply), me, opponent, depth - 1, other - 1);
      }
    }
  }

  lemma LosesNoEscape(b: Board, me: string, opponent: string, depth: nat)
    requires ForcesLoss(b, me, opponent, depth)
    ensures !Escapes(b, me, opponent, depth)
  {
    if Escapes(b, me, opponent, depth) {
      EscapeIsFinal(b, me, opponent, depth, depth);
    }
  }

  /** A forced loss stays forced when more turns are allowed. */
  lemma {:induction false} ForcedLossPersists(b: Board, me: string, opponent: string, depth: nat, deeper: nat)
    requires ForcesLoss(b, me, opponent, depth) && depth <= deeper
    ensures ForcesLoss(b, me, opponent, deeper)
    decreases depth
  {
    hide Joint, Classify, CommandMoves;
    if Classify(b, me, opponent) == Unresolved {
      forall own | own in DIRECTIONS ensures Refuted(b, me, opponent, deeper, own) {
        var reply :| reply in CommandMoves(b, opponent)
                  && ForcesLoss(Joint(b, me, opponent, own, reply), me, opponent, depth - 1);
        ForcedLossPersists(Joint(b, me, opponent, own, reply), me, opponent, depth - 1, deeper - 1);
      }
    }
  }

  datatype Verdict = Proven | NotProven | Unknown

  const NODE_CAP: nat := 200000

  ghost predicate NeverTimesOut(timedOut: nat -> bool) {
    forall n: nat :: !timedOut(n)
  }

  function Max(a: nat, b: nat): nat { if a > b then a else b }

  function Times(n: nat, each: nat): nat {
    if n == 0 then 0 else Times(n - 1, each) + each
  }

  lemma {:induction false} TimesGrows(n: nat, m: nat, each: nat)
    requires n <= m
    ensures Times(n, each) <= Times(m, each) && m <= Times(m, each + 1)
  {
    if m > 0 {
      TimesGrows(if n < m then n else n - 1, m - 1, each);
    }
  }

  lemma TimesStep(n: nat, each: nat)
    ensures Times(n + 1, each) == Times(n, each) + each && Times(0, each) == 0
  {}

  /** The most nodes below an own move with so many turns left: four replies with all that is below them. */
  function Replied(depth: nat): nat
    requires depth > 0
    decreases depth, 0
  {
    Times(4, 1 + Tree(depth - 1))
  }

  /** The most nodes below a node with so many turns left. */
  function Tree(depth: nat): nat
    decreases depth
  {
    if depth == 0 then 0 else Times(4, Replied(depth))
  }

  /** The tree has sixteen branches a turn. */
  lemma TreeSize(depth: nat)
    requires depth > 0
    ensures Tree(depth) == 16 * (1 + Tree(depth - 1))
  {
    var t := 1 + Tree(depth - 1);
    assert Times(4, t) == Times(3, t) + t == Times(2, t) + 2 * t == Times(1, t) + 3 * t == 4 * t;
    var r := Replied(depth);
    assert Times(4, r) == Times(3, r) + r == Times(2, r) + 2 * r == Times(1, r) + 3 * r == 4 * r;
  }

  /** The clock never strikes, and the budget is not used up or was large enough from the start. */
  ghost predicate Unhindered(timedOut: nat -> bool, nodes: nat, most: nat) {
    NeverTimesOut(timedOut) && (nodes < NODE_CAP || most <= NODE_CAP)
  }

  /**
   The search of one node. The clock is an arbitrary function of the node count, and no two
   checks fall on the same count. A proof and a disproof are final. The work is bounded by the
   size of the tree, and when that fits into the budget, both are exact unless the clock
   strikes. The board is restored, and the node budget is overrun by at most 16 per turn.
   */
  method ForcedLossNode(state: CoreSearchState, me: string, opponent: string, depth: nat,
                        timedOut: nat -> bool, nodesIn: nat)
    returns (verdict: Verdict, nodes: nat)
    requires state.Valid()
    modifies state.Repr
    ensures state.Valid() && fresh(state.Repr - old(state.Repr)) && state.boards == old(state.boards)
    ensures verdict == Proven ==> ForcesLoss(old(state.Top()), me, opponent, depth)
    ensures verdict == NotProven ==> Escapes(old(state.Top()), me, opponent, depth)
    ensures Unhindered(timedOut, nodes, nodesIn + Tree(depth)) ==>
      && (verdict == Proven <==> ForcesLoss(old(state.Top()), me, opponent, depth))
      && (verdict == NotProven <==> Escapes(old(state.Top()), me, opponent, depth))
    ensures nodesIn <= nodes <= nodesIn + Tree(depth)
    ensures nodes <= Max(nodesIn, NODE_CAP) + 16 * depth
    ensures nodesIn >= NODE_CAP ==> nodes == nodesIn
    decreases depth, 2
  {
    hide Joint, CommandMoves, CoreSearchState.Valid, Tree, Times;
    nodes := nodesIn;
    ghost var top := state.Top();
    var board := state.CurrentBoard();
    var outcome := Classify(board, me, opponent);
    if outcome == Loss {
      return Proven, nodes;
    }
    if outcome == Win || outcome == Draw {
      return NotProven, nodes;
    }
    if depth > 0 {
      TreeSize(depth);
    }
    if depth == 0 || nodes >= NODE_CAP || timedOut(nodes) {
      return Unknown, nodes;
    }
    var replies := CommandMoveList(board, opponent);
    if replies == [] {
      assert forall reply :: reply !in CommandMoves(top, opponent);
      assert Up in DIRECTIONS && !Refuted(top, me, opponent, depth, Up);
      return Unknown, nodes;
    }
    verdict, nodes := TryMoves(state, me, opponent, depth, timedOut, nodesIn, replies);
  }

  /** All own moves, up to the first that no reply refutes for certain. */
  method TryMoves(state: CoreSearchState, me: string, opponent: string, depth: nat, timedOut: nat -> bool,
                  nodesIn: nat, replies: seq<Move>)
    returns (verdict: Verdict, nodes: nat)
    requires state.Valid() && depth > 0 && nodesIn < NODE_CAP && Classify(state.Top(), me, opponent) == Unresolved
    requires replies == CommandMoves(state.Top(), opponent) != []
    modifies state.Repr
    ensures state.Valid() && fresh(state.Repr - old(state.Repr)) && state.boards == old(state.boards)
    ensures verdict == Proven ==> ForcesLoss(old(state.Top()), me, opponent, depth)
    ensures verdict == NotProven ==> Escapes(old(state.Top()), me, opponent, depth)
    ensures Unhindered(timedOut, nodes, nodesIn + Tree(depth)) ==>
      && (verdict == Proven <==> ForcesLoss(old(state.Top()), me, opponent, depth))
      && (verdict == NotProven <==> Escapes(old(state.Top()), me, opponent, depth))
    ensures nodesIn <= nodes <= nodesIn + Tree(depth)
    ensures nodes <= NODE_CAP + 16 * depth
    decreases depth, 1
  {
    hide Joint, CommandMoves, CoreSearchState.Valid, Times, Tree, Replied, Classify;
    ghost var top := state.Top();
    ghost var most := nodesIn + Tree(depth);
    TreeOf(depth);
    TimesStep(0, Replied(depth));
    nodes := nodesIn;
    var anyUnknown := false;
    for own := 0 to 4
      invariant state.Valid() && fresh(state.Repr - old(state.Repr)) && state.boards == old(state.boards)
      invariant nodesIn <= nodes <= NODE_CAP + 16 * (depth - 1) + 4 * own
      invariant nodes <= nodesIn + Times(own, Replied(depth))
      invariant !anyUnknown ==> forall k :: 0 <= k < own ==> Refuted(top, me, opponent, depth, DIRECTIONS[k])
      invariant anyUnknown && Unhindered(timedOut, nodes, most) ==>
        exists k :: 0 <= k < own && !Refuted(top, me, opponent, depth, DIRECTIONS[k])
      invariant Unhindered(timedOut, nodes, most) ==>
        forall k :: 0 <= k < own ==> !EscapesWith(top, me, opponent, depth, DIRECTIONS[k])
    {
      TimesGrows(own + 1, 4, Replied(depth));
      TimesStep(own, Replied(depth));
      var refuted, unknown;
      refuted, unknown, nodes := TryReplies(state, me, opponent, depth, timedOut, nodes, DIRECTIONS[own], replies);
      if !refuted && !unknown {
        assert DIRECTIONS[own] in DIRECTIONS;
        EscapeIsFinal(top, me, opponent, depth, depth);
        return NotProven, nodes;
      }
      if !refuted {
        anyUnknown := true;
      }
    }
    verdict := if anyUnknown then Unknown else Proven;
    if anyUnknown && Unhindered(timedOut, nodes, most) {
      var k :| 0 <= k < 4 && !Refuted(top, me, opponent, depth, DIRECTIONS[k]);
      assert DIRECTIONS[k] in DIRECTIONS;
    }
  }

  lemma TreeOf(depth: nat)
    requires depth > 0
    ensures Tree(depth) == Times(4, Replied(depth)) && Replied(depth) == Times(4, 1 + Tree(depth - 1))
  {}

  /** Makes one joint move, searches the node below it, and unmakes the move. */
  method TryReply(state: CoreSearchState, me: string, opponent: string, depth: nat, timedOut: nat -> bool,
                  nodesIn: nat, own: Move, reply: Move)
    returns (child: Verdict, nodes: nat)
    requires state.Valid() && depth > 0
    modifies state.Repr
    ensures state.Valid() && fresh(state.Repr - old(state.Repr)) && state.boards == old(state.boards)
    ensures child == Proven ==> ForcesLoss(Joint(old(state.Top()), me, opponent, own, reply), me, opponent, depth - 1)
    ensures child == NotProven ==> Escapes(Joint(old(state.Top()), me, opponent, own, reply), me, opponent, depth - 1)
    ensures Unhindered(timedOut, nodes, nodesIn + 1 + Tree(depth - 1)) ==>
      && (child == Proven <==> ForcesLoss(Joint(old(state.Top()), me, opponent, own, reply), me, opponent, depth - 1))
      && (child == NotProven <==> Escapes(Joint(old(state.Top()), me, opponent, own, reply), me, opponent, depth - 1))
    ensures nodesIn < nodes <= nodesIn + 1 + Tree(depth - 1)
    ensures nodes <= Max(nodesIn + 1, NODE_CAP + 16 * (depth - 1))
    decreases depth - 1, 3
  {
    hide Step, Classify, Escapes, ForcesLoss, CoreSearchState.Valid, Tree;
    var _ := state.MakeMovesDetailed([Command(me, own), Command(opponent, reply)], 0);
    child, nodes := ForcedLossNode(state, me, opponent, depth - 1, timedOut, nodesIn + 1);
    var _ := state.Unmake();
  }

  /** All replies to one own move, up to the first that refutes it. */
  method TryReplies(state: CoreSearchState, me: string, opponent: string, depth: nat, timedOut: nat -> bool,
                    nodesIn: nat, own: Move, replies: seq<Move>)
    returns (refuted: bool, unknown: bool, nodes: nat)
    requires state.Valid() && depth > 0
    requires replies == CommandMoves(state.Top(), opponent)
    modifies state.Repr
    ensures state.Valid() && fresh(state.Repr - old(state.Repr)) && state.boards == old(state.boards)
    ensures refuted ==> Refuted(old(state.Top()), me, opponent, depth, own)
    ensures !refuted && !unknown ==> EscapesWith(old(state.Top()), me, opponent, depth, own)
    ensures Unhindered(timedOut, nodes, nodesIn + Replied(depth)) ==>
      && (refuted <==> Refuted(old(state.Top()), me, opponent, depth, own))
      && (!refuted && !unknown <==> EscapesWith(old(state.Top()), me, opponent, depth, own))
    ensures nodesIn <= nodes <= nodesIn + Replied(depth)
    ensures nodes <= Max(nodesIn, NODE_CAP + 16 * (depth - 1)) + 4
    decreases depth, 0
  {
    hide Joint, CommandMoves, Classify, Escapes, ForcesLoss, CoreSearchState.Valid, Tree, Times, Replied;
    ghost var top := state.Top();
    ghost var most := nodesIn + Replied(depth);
    ghost var each := 1 + Tree(depth - 1);
    TreeOf(depth);
    TimesStep(0, each);
    TimesGrows(|replies|, 4, each);
    refuted, unknown, nodes := false, false, nodesIn;
    for r := 0 to |replies|
      invariant state.Valid() && fresh(state.Repr - old(state.Repr)) && state.boards == old(state.boards)
      invariant nodesIn <= nodes <= Max(nodesIn, NODE_CAP + 16 * (depth - 1)) + r
      invariant nodes <= nodesIn + Times(r, each)
      invariant !unknown ==> forall k :: 0 <= k < r ==>
        Escapes(Joint(top, me, opponent, own, replies[k]), me, opponent, depth - 1)
      invariant Unhindered(timedOut, nodes, most) ==> forall k :: 0 <= k < r ==>
        !ForcesLoss(Joint(top, me, opponent, own, replies[k]), me, opponent, depth - 1)
      invariant unknown && Unhindered(timedOut, nodes, most) ==> !EscapesWith(top, me, opponent, depth, own)
    {
      TimesGrows(r + 1, 4, each);
      TimesStep(r, each);
      ghost var next := Joint(top, me, opponent, own, replies[r]);
      var child;
      child, nodes := TryReply(state, me, opponent, depth, timedOut, nodes, own, replies[r]);
      assert replies[r] in CommandMoves(top, opponent);
      if child == Proven {
        LosesNoEscape(next, me, opponent, depth - 1);
        return true, unknown, nodes;
      }
      if child == Unknown {
        unknown := true;
      } else {
        EscapeIsFinal(next, me, opponent, depth - 1, depth - 1);
      }
    }
  }

  datatype Refutation = ProvenRefutable | NotRefutable | RefutationUnknown

  /** Whether a root move can be refuted by some reply, searched on a fresh copy of the board. */
  method RefuteRootMove(b: Board, me: string, opponent: string, rootMove: Move, horizon: nat,
                        timedOut: nat -> bool, nodesIn: nat)
    returns (status: Refutation, nodes: nat)
    ensures status == ProvenRefutable ==> Refuted(b, me, opponent, horizon + 1, rootMove)
    ensures status == NotRefutable ==>
      CommandMoves(b, opponent) != [] && EscapesWith(b, me, opponent, horizon + 1, rootMove)
    ensures Unhindered(timedOut, nodes, nodesIn + Replied(horizon + 1)) ==>
      && (status == ProvenRefutable <==> Refuted(b, me, opponent, horizon + 1, rootMove))
      && (status == NotRefutable <==>
            CommandMoves(b, opponent) != [] && EscapesWith(b, me, opponent, horizon + 1, rootMove))
    ensures nodes <= nodesIn + Replied(horizon + 1)
    ensures nodesIn <= nodes <= Max(nodesIn, NODE_CAP + 16 * horizon) + 4
  {
    hide Joint, CommandMoves, CoreSearchState.Valid, Replied;
    nodes := nodesIn;
    var replies := CommandMoveList(b, opponent);
    if replies == [] {
      assert forall reply :: reply !in CommandMoves(b, opponent);
      return RefutationUnknown, nodes;
    }
    var state := new CoreSearchState(b);
    var refuted, unknown;
    refuted, unknown, nodes := TryReplies(state, me, opponent, horizon + 1, timedOut, nodes, rootMove, replies);
    status := if refuted then ProvenRefutable else if unknown then RefutationUnknown else NotRefutable;
  }
}

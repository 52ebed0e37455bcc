/**
 A duel in which the survival step leads the search astray: the opponent's first reply runs
 into the longer snake, and after another one the longer snake may threaten to do it again.
 With this board, flags are truthful on all boards exactly when there is no survival step.
 */
module StepDuels {
  import opened Grid
  import opened Boards
  import opened Optional
  import opened Outcomes
  import opened ForcedLoss
  import opened JointMoves
  import opened Limits
  import opened AlphaBeta
  import opened GameTrees
  import SafeMoves

  /** Two segments against one on an empty board. */
  function Duel(head: Coord, neck: Coord, opponent: Coord, health: int): Board {
    Board(7, 7, [Snake("a", "", health, [head, neck], 2), Snake("b", "", health, [opponent], 1)], [], [], "standard", 14)
  }

  /** Undecided positions are worth as much as a win. */
  ghost function Hopeful(w: Weights): Game {
    Game("a", "b", w, _ => w.win, [Right])
  }

  predicate Inside(c: Coord) { 0 <= c.x < 7 && 0 <= c.y < 7 }

  function Me(head: Coord, neck: Coord, health: int): Snake { Snake("a", "", health, [head, neck], 2) }

  function Rival(c: Coord, health: int): Snake { Snake("b", "", health, [c], 1) }

  function Moved(p: Coord, head: Coord, o: Coord, health: int): seq<Mover> {
    [Mover(Me(p, head, health), p, true, false, {}), Mover(Rival(o, health), o, true, false, {})]
  }

  /** The rival is gone when it ran into the longer snake's head or neck. */
  function Remaining(p: Coord, head: Coord, o: Coord, health: int): seq<Snake> {
    [Me(p, head, health)] + if o == p || o == head then [] else [Rival(o, health)]
  }

  lemma DuelCommands(head: Coord, neck: Coord, q: Coord, health: int, m: Move, r: Move)
    ensures var commands := Commands(Duel(head, neck, q, health), [m, r]);
            MoveFor("a", commands) == m && MoveFor("b", commands) == r
  {
    var commands := Commands(Duel(head, neck, q, health), [m, r]);
    assert commands == [Command("a", m), Command("b", r)];
    assert "a"[0] != "b"[0];
    assert commands[1..][0] == Command("b", r);
  }

  lemma DuelMovers(head: Coord, neck: Coord, q: Coord, health: int, m: Move, r: Move)
    requires m != Invalid && r != Invalid && health >= 2
    requires Inside(MoveStep(head, m)) && Inside(MoveStep(q, r))
    ensures var b, p, o := Duel(head, neck, q, health), MoveStep(head, m), MoveStep(q, r);
            Movers(b, Commands(b, [m, r])) == Moved(p, head, o, health - 1)
  {
    hide MoveFor, Commands;
    var b := Duel(head, neck, q, health);
    DuelCommands(head, neck, q, health, m, r);
    DuelAdvance(b, b.snakes[0], m);
    DuelAdvance(b, b.snakes[1], r);
    assert [MoveStep(head, m)] + [head, neck][..1] == [MoveStep(head, m), head];
    assert [MoveStep(q, r)] + [q][..0] == [MoveStep(q, r)];
  }

  lemma DuelAdvance(b: Board, s: Snake, m: Move)
    requires b.food == [] && b.hazards == [] && b.width == b.height == 7 && b.ruleset == "standard"
    requires m != Invalid && s.body != [] && s.health >= 2 && Inside(MoveStep(s.body[0], m))
    ensures var p := MoveStep(s.body[0], m);
            var body := [p] + s.body[..|s.body| - 1];
            Advance(b, s, m) == Mover(Snake(s.id, s.name, s.health - 1, body, |body|), p, true, false, {})
  {
    assert "standard"[0] != "constrictor"[0];
  }

  /** One joint move that stays on the board: the rival dies when it runs into the longer snake. */
  lemma DuelStep(head: Coord, neck: Coord, q: Coord, health: int, m: Move, r: Move)
    requires m != Invalid && r != Invalid && health >= 2
    requires Inside(MoveStep(head, m)) && Inside(MoveStep(q, r))
    ensures var p, o := MoveStep(head, m), MoveStep(q, r);
            After(Duel(head, neck, q, health), [m, r]).snakes == Remaining(p, head, o, health - 1)
    ensures After(Duel(head, neck, q, health), [m, r]).(snakes := []) == Duel(head, neck, q, health).(snakes := [])
  {
    hide Movers, MoveFor, Commands;
    var b, p, o := Duel(head, neck, q, health), MoveStep(head, m), MoveStep(q, r);
    DuelMovers(head, neck, q, health, m, r);
    var ms := Movers(b, Commands(b, [m, r]));
    DuelSurvivors(ms, p, head, o, health - 1);
  }

  lemma DuelSurvivors(ms: seq<Mover>, p: Coord, head: Coord, o: Coord, health: int)
    requires ms == Moved(p, head, o, health) && p != head
    ensures Survivors(ms, 2) == Remaining(p, head, o, health)
  {
    assert !BodyHit(ms, 0, 0) && !BodyHit(ms, 0, 1) && !BodyHit(ms, 1, 1);
    assert BodyHit(ms, 1, 0) <==> o == head by {
      assert ms[0].snake.body[1] == head;
    }
    assert Survives(ms, 0);
    assert Standing(ms, 0);
    assert Survives(ms, 1) <==> o != p && o != head by {
      assert o == p ==> Outmatched(ms, 1, 0);
    }
    assert Kept(ms, 1) == [0];
  }

  predicate Clear(o: Coord, p: Coord, head: Coord) { o != p && o != head }

  /** The board stays a duel, or the rival is gone and the game is won. */
  lemma DuelResult(head: Coord, neck: Coord, q: Coord, health: int, m: Move, r: Move)
    requires m != Invalid && r != Invalid && health >= 2
    requires Inside(MoveStep(head, m)) && Inside(MoveStep(q, r))
    ensures var p, o, next := MoveStep(head, m), MoveStep(q, r), After(Duel(head, neck, q, health), [m, r]);
            if Clear(o, p, head) then next == Duel(p, head, o, health - 1) && Classify(next, "a", "b") == Unresolved
            else Classify(next, "a", "b") == Win
  {
    hide After;
    var p, o, next := MoveStep(head, m), MoveStep(q, r), After(Duel(head, neck, q, health), [m, r]);
    DuelStep(head, neck, q, health, m, r);
    assert "a"[0] != "b"[0];
    if Clear(o, p, head) {
      assert next == next.(snakes := []).(snakes := next.snakes);
      DuelUnresolved(p, head, o, health - 1);
    } else {
      assert FindSnake(next.snakes, "a") == 0;
      assert FindSnake(next.snakes, "b") == 1;
    }
  }

  lemma DuelUnresolved(head: Coord, neck: Coord, q: Coord, health: int)
    ensures var b := Duel(head, neck, q, health);
            && Lookup(b, "a") == Some(Me(head, neck, health)) && Lookup(b, "b") == Some(Rival(q, health))
            && Classify(b, "a", "b") == Unresolved
  {
    var b := Duel(head, neck, q, health);
    assert "a"[0] != "b"[0];
    assert FindSnake(b.snakes[1..], "b") == 0;
    assert FindSnake(b.snakes, "a") == 0;
    assert FindSnake(b.snakes, "b") == 1;
  }

  /** The rival, with a single segment, may take any direction. */
  lemma DuelOptions(w: Weights, head: Coord, neck: Coord, q: Coord, health: int, own: Move)
    ensures OptionsFor(Hopeful(w), Duel(head, neck, q, health), own) == [[own], DIRECTIONS]
  {
    var b := Duel(head, neck, q, health);
    DuelUnresolved(head, neck, q, health);
    assert "a"[0] != "b"[0];
    var s := Rival(q, health);
    assert CommandsUpTo(b, s, 1) == [Up];
    assert CommandsUpTo(b, s, 2) == [Up, Down];
    assert CommandsUpTo(b, s, 3) == [Up, Down, Left];
    assert CommandMoves(b, "b") == DIRECTIONS;
  }

  /** With the rival out of reach every direction is safe. */
  lemma DuelSafe(head: Coord, neck: Coord, q: Coord, health: int)
    requires health >= 2 && forall m :: m in DIRECTIONS ==> Inside(MoveStep(head, m)) && MoveStep(head, m) != q
    requires head != neck
    ensures SafeOrAll(Duel(head, neck, q, health), "a") == DIRECTIONS
  {
    hide SafeMoves.SafeTarget;
    var b := Duel(head, neck, q, health);
    DuelUnresolved(head, neck, q, health);
    forall m | m in DIRECTIONS ensures SafeMoves.SafeTarget(b, MoveStep(head, m), "a") {
      DuelSafeTarget(head, neck, q, health, MoveStep(head, m));
    }
    assert SafeMoves.SafeDirections(b, "a", 1) == [Up];
    assert SafeMoves.SafeDirections(b, "a", 2) == [Up, Down];
    assert SafeMoves.SafeDirections(b, "a", 3) == [Up, Down, Left];
  }

  lemma DuelSafeTarget(head: Coord, neck: Coord, q: Coord, health: int, c: Coord)
    requires Inside(c) && c != head && c != q && health >= 2
    ensures SafeMoves.SafeTarget(Duel(head, neck, q, health), c, "a")
  {
    var b := Duel(head, neck, q, health);
    DuelUnresolved(head, neck, q, health);
    assert "standard"[0] != "constrictor"[0];
    if SafeMoves.OnBody(b, c) {
      assert c == neck;
      assert SafeMoves.TailVacates(b, b.snakes[0], c, "a") && b.snakes[0].body[1] == c;
      assert SafeMoves.OnVacatingTail(b, c, "a");
    }
  }

  const HEAD: Coord := Coord(2, 3)

  function Start(): Board { Duel(Coord(1, 3), Coord(0, 3), Coord(3, 3), 100) }

  /** One turn later, with the rival on the given cell. */
  function Later(o: Coord): Board { Duel(HEAD, Coord(1, 3), o, 99) }

  /** The rival's head after a reply other than Left, which runs into mine. */
  function Reached(r: Move): Coord { MoveStep(Coord(3, 3), r) }

  /** An own move that keeps out of the rival's reach. */
  function Evading(r: Move): Move { if r == Up then Down else Up }

  ghost function Second(w: Weights, r: Move, m: Move): Branch
    requires r in {Up, Down, Right}
  {
    CanonicalBranch(Hopeful(w), Later(Reached(r)), 1, 1, m)
  }

  /** How the second turn ends. */
  function Ending(w: Weights, r: Move, m: Move, k: nat): Node
    requires k < 4
  {
    if Clear(MoveStep(Reached(r), DIRECTIONS[k]), MoveStep(HEAD, m), HEAD) then Quiet(w.win) else Terminal(Win)
  }

  /** My move and the k-th of the rival's four have number k. */
  lemma DuelNumbers(m: Move, k: nat)
    requires k < 4
    ensures Combinations([[m], DIRECTIONS], 0) == 4
    ensures Decode([[m], DIRECTIONS], 0, k) == [m, DIRECTIONS[k]]
  {
    var options := [[m], DIRECTIONS];
    assert Combinations(options, 2) == 1 && Combinations(options, 1) == 4;
    assert Decode(options, 2, k / 4) == [] && Decode(options, 1, k) == [DIRECTIONS[k % 4]];
    assert k % |options[0]| == 0 && k / |options[0]| == k;
  }

  lemma SecondReplies(w: Weights, r: Move, m: Move)
    requires r in {Up, Down, Right} && m in DIRECTIONS
    ensures var replies := Second(w, r, m).replies;
            |replies| == 4 && forall k :: 0 <= k < 4 ==> replies[k].node == Ending(w, r, m, k)
  {
    hide After, OptionsFor, Ending, CanonicalReplies;
    var u, b, options := Hopeful(w), Later(Reached(r)), [[m], DIRECTIONS];
    DuelOptions(w, HEAD, Coord(1, 3), Reached(r), 99, m);
    DuelNumbers(m, 0);
    var replies := Second(w, r, m).replies;
    assert replies == CanonicalReplies(u, b, 1, 1, options, 0);
    forall k | 0 <= k < 4 ensures replies[k].node == Ending(w, r, m, k) {
      SecondReply(w, r, m, k);
    }
  }

  lemma SecondReply(w: Weights, r: Move, m: Move, k: nat)
    requires r in {Up, Down, Right} && m in DIRECTIONS && k < 4
    ensures var u, b, options := Hopeful(w), Later(Reached(r)), [[m], DIRECTIONS];
            && Combinations(options, 0) == 4
            && CanonicalReplies(u, b, 1, 1, options, 0)[k].node == Ending(w, r, m, k)
  {
    hide After, OptionsFor, Combinations, Decode;
    DuelNumbers(m, k);
    DuelResult(HEAD, Coord(1, 3), Reached(r), 99, m, DIRECTIONS[k]);
  }

  /** The value of a win that the reply brings about. */
  function Won(w: Weights): Value { TerminalValue(w, Win, 1) }

  /** Replies that win at once or lead to a quiet position. */
  ghost predicate Ended(w: Weights, replies: seq<Reply>) {
    forall k :: 0 <= k < |replies| ==> replies[k].node == Terminal(Win) || replies[k].node == Quiet(w.win)
  }

  ghost predicate SomeWin(replies: seq<Reply>, n: nat)
    requires n <= |replies|
  {
    exists k :: 0 <= k < n && replies[k].node == Terminal(Win)
  }

  lemma {:induction false} EndedPlain(w: Weights, replies: seq<Reply>, n: nat)
    requires FiniteWeights(w) && SurvivalStep(w) > 0.0 && n <= |replies| && Ended(w, replies)
    ensures PlainWorst(w, replies, n) ==
      if n == 0 then Unsettled(DBL_MAX) else if SomeWin(replies, n) then Won(w) else Unsettled(w.win)
  {
    hide SurvivalStep, TerminalValue;
    WinScores(w);
    if n > 0 {
      EndedPlain(w, replies, n - 1);
      assert SomeWin(replies, n) <==> SomeWin(replies, n - 1) || replies[n - 1].node == Terminal(Win);
    }
  }

  /** Windows play no role in these replies. */
  lemma {:induction false} EndedWorst(w: Weights, replies: seq<Reply>, k: nat, beta: real)
    requires FiniteWeights(w) && SurvivalStep(w) > 0.0 && k <= |replies| && Ended(w, replies)
    ensures WorstReply(w, replies, k, -DBL_MAX, beta, PlainWorst(w, replies, k)) == (PlainWorst(w, replies, |replies|), false)
    decreases |replies| - k
  {
    hide SurvivalStep, TerminalValue;
    WinScores(w);
    if k < |replies| {
      EndedPlain(w, replies, k);
      EndedWorst(w, replies, k + 1, beta);
    }
  }

  lemma SecondValues(w: Weights, r: Move, m: Move, beta: real)
    requires r in {Up, Down, Right} && m in DIRECTIONS && FiniteWeights(w) && SurvivalStep(w) > 0.0
    ensures var replies := Second(w, r, m).replies;
            && WorstReply(w, replies, 0, -DBL_MAX, beta, Unsettled(DBL_MAX)) == (PlainWorst(w, replies, |replies|), false)
            && PlainWorst(w, replies, |replies|) in {Won(w), Unsettled(w.win)}
            && (m == Evading(r) ==> PlainWorst(w, replies, |replies|) == Unsettled(w.win))
            && (r == Up && m == Right ==> PlainWorst(w, replies, |replies|) == Won(w))
  {
    hide SurvivalStep, TerminalValue, PlainWorst, WorstReply, CanonicalBranch;
    var replies := Second(w, r, m).replies;
    SecondReplies(w, r, m);
    EndedPlain(w, replies, 0);
    EndedPlain(w, replies, 4);
    EndedWorst(w, replies, 0, beta);
    assert r == Up && m == Right ==> replies[1].node == Ending(w, r, m, 1) == Terminal(Win);
  }

  /** Own moves of the second turn, in some order. */
  ghost predicate AllSecond(w: Weights, r: Move, branches: seq<Branch>)
    requires r in {Up, Down, Right}
  {
    forall i :: 0 <= i < |branches| ==> branches[i].move in DIRECTIONS && branches[i] == Second(w, r, branches[i].move)
  }

  lemma {:induction false} SecondPlain(w: Weights, r: Move, branches: seq<Branch>, n: nat)
    requires r in {Up, Down, Right} && FiniteWeights(w) && SurvivalStep(w) > 0.0 && n <= |branches| && AllSecond(w, r, branches)
    ensures var best := PlainBest(w, branches, n);
            if n == 0 then best == Unsettled(-DBL_MAX)
            else if exists i :: 0 <= i < n && branches[i].move == Evading(r) then best == Unsettled(w.win)
            else best in {Won(w), Unsettled(w.win)}
  {
    hide SurvivalStep, TerminalValue, PlainWorst, WorstReply, CanonicalReplies;
    WinScores(w);
    if n > 0 {
      SecondPlain(w, r, branches, n - 1);
      SecondValues(w, r, branches[n - 1].move, 0.0);
      assert !branches[n - 1].preferred;
    }
  }

  /** The second turn after the reply Up, with the move that may win tried first. */
  ghost function Tempted(w: Weights): Node {
    Choice([Second(w, Up, Right), Second(w, Up, Up), Second(w, Up, Down), Second(w, Up, Left)])
  }

  ghost function RootReplies(w: Weights): seq<Reply> {
    var u := Hopeful(w);
    [Reply([Right, Left], Terminal(Win)), Reply([Right, Up], Tempted(w)),
     Reply([Right, Down], Canonical(u, Later(Reached(Down)), 1, 1)),
     Reply([Right, Right], Canonical(u, Later(Reached(Right)), 1, 1))]
  }

  /** The whole game tree, with the winning reply first. */
  ghost function DuelTree(w: Weights): seq<Branch> { [Branch(Right, false, RootReplies(w))] }

  lemma LaterMoves(w: Weights, r: Move)
    requires r in {Up, Down, Right}
    ensures OwnMoves(Hopeful(w), Later(Reached(r)), 1) == DIRECTIONS
    ensures Classify(Later(Reached(r)), "a", "b") == Unresolved
  {
    DuelSafe(HEAD, Coord(1, 3), Reached(r), 99);
    DuelUnresolved(HEAD, Coord(1, 3), Reached(r), 99);
  }

  lemma SecondTurn(w: Weights, r: Move)
    requires r in {Up, Down, Right} && FiniteWeights(w) && SurvivalStep(w) > 0.0
    ensures Plain(w, Canonical(Hopeful(w), Later(Reached(r)), 1, 1)) == Unsettled(w.win)
  {
    hide SurvivalStep, TerminalValue, CanonicalBranch, Classify, OwnMoves;
    LaterMoves(w, r);
    var u, b := Hopeful(w), Later(Reached(r));
    var branches := Canonical(u, b, 1, 1).branches;
    assert |branches| == 4;
    forall i | 0 <= i < 4 ensures branches[i].move == DIRECTIONS[i] && branches[i] == Second(w, r, DIRECTIONS[i]) {
      SecondMove(w, r, DIRECTIONS[i]);
    }
    assert branches[0].move == Up && branches[1].move == Down;
    SecondPlain(w, r, branches, 4);
  }

  lemma SecondMove(w: Weights, r: Move, m: Move)
    requires r in {Up, Down, Right}
    ensures Second(w, r, m).move == m
  {
    hide CanonicalReplies;
  }

  /** The tempted search stops at the possible win; without windows the quiet move is found. */
  lemma TemptedValues(w: Weights)
    requires FiniteWeights(w) && SurvivalStep(w) > 0.0
    ensures Plain(w, Tempted(w)) == Unsettled(w.win)
    ensures Search(w, Tempted(w), -DBL_MAX, Won(w).score).(bound := Exact) == Won(w)
  {
    hide SurvivalStep, TerminalValue, CanonicalBranch, WorstReply, PlainWorst;
    WinScores(w);
    var branches := Tempted(w).branches;
    SecondMove(w, Up, Right);
    SecondMove(w, Up, Up);
    SecondMove(w, Up, Down);
    SecondMove(w, Up, Left);
    assert branches[2].move == Evading(Up);
    SecondPlain(w, Up, branches, 4);
    SecondValues(w, Up, Right, Won(w).score);
    assert BestMove(w, branches, 0, -DBL_MAX, Won(w).score, Unsettled(-DBL_MAX)).0 == Won(w);
  }

  lemma {:induction false} WorstOnlyFalls(w: Weights, replies: seq<Reply>, k: nat, alpha: real, beta: real, worst: Value)
    requires k <= |replies|
    ensures WorstReply(w, replies, k, alpha, beta, worst).0.score <= worst.score
    decreases |replies| - k
  {
    hide Search, Backup;
    if k < |replies| {
      var value := Backup(w, Search(w, replies[k].node, alpha, Least(worst.score, beta)));
      var next := if value.score < worst.score then value else worst;
      if next.score > alpha {
        WorstOnlyFalls(w, replies, k + 1, alpha, beta, next);
      }
    }
  }

  lemma RootWorst(w: Weights)
    requires FiniteWeights(w) && SurvivalStep(w) > 0.0
    ensures WorstReply(w, RootReplies(w), 0, -DBL_MAX, DBL_MAX, Unsettled(DBL_MAX)).0.score <= w.win - 2.0 * SurvivalStep(w)
  {
    hide SurvivalStep, TerminalValue, Tempted, Canonical;
    WinScores(w);
    TemptedValues(w);
    var replies := RootReplies(w);
    assert WorstReply(w, replies, 0, -DBL_MAX, DBL_MAX, Unsettled(DBL_MAX)) == WorstReply(w, replies, 1, -DBL_MAX, DBL_MAX, Won(w));
    var value := Backup(w, Search(w, replies[1].node, -DBL_MAX, Won(w).score));
    assert value.score == w.win - 2.0 * SurvivalStep(w);
    assert WorstReply(w, replies, 1, -DBL_MAX, DBL_MAX, Won(w)) == WorstReply(w, replies, 2, -DBL_MAX, DBL_MAX, value);
    WorstOnlyFalls(w, replies, 2, -DBL_MAX, DBL_MAX, value);
  }

  lemma RootPlain(w: Weights)
    requires FiniteWeights(w) && SurvivalStep(w) > 0.0
    ensures PlainWorst(w, RootReplies(w), 4) == Won(w)
  {
    hide SurvivalStep, TerminalValue, Tempted, Canonical;
    WinScores(w);
    TemptedValues(w);
    SecondTurn(w, Down);
    SecondTurn(w, Right);
    var replies := RootReplies(w);
    assert PlainWorst(w, replies, 1) == Won(w);
    assert PlainWorst(w, replies, 2) == Won(w);
    assert PlainWorst(w, replies, 3) == Won(w);
  }

  lemma DuelUnfolds(w: Weights)
    ensures Unfolds(Hopeful(w), Start(), 2, 0, Choice(DuelTree(w)))
  {
    hide BranchUnfolds, Classify, RootReplies;
    DuelUnresolved(Coord(1, 3), Coord(0, 3), Coord(3, 3), 100);
    RootUnfolds(w);
    assert DuelTree(w)[0].move == Right;
  }

  lemma RootUnfolds(w: Weights)
    ensures BranchUnfolds(Hopeful(w), Start(), 2, 0, DuelTree(w)[0])
  {
    hide OptionsFor, Unfolds, After, Classify, Tempted, Canonical;
    var u, replies := Hopeful(w), RootReplies(w);
    DuelOptions(w, Coord(1, 3), Coord(0, 3), Coord(3, 3), 100, Right);
    forall k | 0 <= k < 4 ensures ReplyUnfolds(u, Start(), 2, 0, Right, replies[k]) {
      RootReplyUnfolds(w, k);
    }
    forall moves | IsJoint([[Right], DIRECTIONS], moves) ensures exists k :: 0 <= k < 4 && replies[k].moves == moves {
      assert moves == [Right, moves[1]];
      var k := if moves[1] == Left then 0 else if moves[1] == Up then 1 else if moves[1] == Down then 2 else 3;
      assert replies[k].moves == moves;
    }
  }

  lemma RootReplyUnfolds(w: Weights, k: nat)
    requires k < 4
    ensures ReplyUnfolds(Hopeful(w), Start(), 2, 0, Right, RootReplies(w)[k])
  {
    hide OptionsFor, Unfolds, After, Classify, Tempted, Canonical;
    var u, r := Hopeful(w), RootReplies(w)[k].moves[1];
    DuelOptions(w, Coord(1, 3), Coord(0, 3), Coord(3, 3), 100, Right);
    DuelResult(Coord(1, 3), Coord(0, 3), Coord(3, 3), 100, Right, r);
    if k == 0 {
      WonUnfolds(u, After(Start(), [Right, r]));
    } else if k == 1 {
      TemptedUnfolds(w);
    } else {
      CanonicalUnfolds(u, Later(Reached(r)), 1, 1);
    }
  }

  lemma WonUnfolds(u: Game, b: Board)
    requires Classify(b, u.me, u.opponent) == Win
    ensures Unfolds(u, b, 1, 1, Terminal(Win))
  {}

  lemma TemptedUnfolds(w: Weights)
    ensures Unfolds(Hopeful(w), Later(Reached(Up)), 1, 1, Tempted(w))
  {
    hide BranchUnfolds, OwnMoves, Classify, CanonicalBranch;
    var u, b, order := Hopeful(w), Later(Reached(Up)), [Right, Up, Down, Left];
    LaterMoves(w, Up);
    var branches := Tempted(w).branches;
    forall i | 0 <= i < 4
      ensures branches[i].move == order[i] && BranchUnfolds(u, b, 1, 1, branches[i])
    {
      SecondMove(w, Up, order[i]);
      CanonicalBranchUnfolds(u, b, 1, 1, order[i]);
    }
    assert branches[0].move == Right && branches[1].move == Up && branches[2].move == Down && branches[3].move == Left;
  }

  /** On this board the record of the only own move lies below its value, so no flag would be true. */
  lemma DuelMisleads(w: Weights)
    requires FiniteWeights(w) && SurvivalStep(w) > 0.0
    ensures Unfolds(Hopeful(w), Start(), 2, 0, Choice(DuelTree(w))) && !TrueFlags(w, DuelTree(w))
  {
    hide SurvivalStep, TerminalValue, RootReplies, Unfolds, WorstReply, PlainWorst;
    DuelUnfolds(w);
    WinScores(w);
    RootWorst(w);
    RootPlain(w);
    var records := BestMove(w, DuelTree(w), 0, -DBL_MAX, DBL_MAX, Unsettled(-DBL_MAX)).1;
    assert |RootReplies(w)| == 4 by {
      RootHasFour(w);
    }
    assert records[0].score < PlainWorst(w, DuelTree(w)[0].replies, 4).score;
  }

  lemma RootHasFour(w: Weights)
    ensures |RootReplies(w)| == 4
  {}

  /** Every game tree, of any board and in any order, is flagged truthfully exactly when there is no survival step. */
  lemma BoardFlagsTrueWithoutStep(w: Weights)
    requires FiniteWeights(w)
    ensures SurvivalStep(w) == 0.0 <==>
      forall u: Game, b: Board, depth: nat, branches: seq<Branch> ::
        u.weights == w && (forall x :: IsFinite(u.eval(x))) && Unfolds(u, b, depth, 0, Choice(branches)) ==> TrueFlags(w, branches)
  {
    hide TrueFlags, Unfolds, DuelTree, SurvivalStep, Start;
    StepNotNegative(w);
    if SurvivalStep(w) == 0.0 {
      forall u: Game, b: Board, depth: nat, branches: seq<Branch> |
        u.weights == w && (forall x :: IsFinite(u.eval(x))) && Unfolds(u, b, depth, 0, Choice(branches))
        ensures TrueFlags(w, branches)
      {
        NoStepSettles(u, b, depth, 0);
        UnfoldingIsSteady(u, b, depth, 0, Choice(branches));
        SteadyFlags(w, branches);
      }
    } else {
      DuelMisleads(w);
      assert Hopeful(w).weights == w && forall x :: IsFinite(Hopeful(w).eval(x));
    }
  }

  lemma StepNotNegative(w: Weights)
    ensures SurvivalStep(w) >= 0.0
  {}
}
